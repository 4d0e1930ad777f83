/** Runs from weighted nodes, over the reals: what their vector weighs, when they stop, how close
    it is. */
module PprWeighted {
  import opened Numbers
  import opened PprSpec
  import opened PprIndexes
  import opened PprRuns
  import opened Sums
  import opened PprReal
  import opened PprMass
  import opened PprConvergence
  import opened PprFixedPoint
  import opened PprTheorems

  // ----- the personalization a weight list makes

  function WeightVector(nodes: seq<NodeId>, pers: seq<(NodeId, real)>): (p: seq<real>)
    ensures |p| == |nodes|
  {
    PersonalizeWeighted(0.0, IdToIdx(nodes), |nodes|, pers)
  }

  /** A node's slot holds the last weight listed for it, or nothing. */
  lemma {:induction false} WeightAt(nodes: seq<NodeId>, pers: seq<(NodeId, real)>, id: NodeId)
    requires id in nodes
    ensures var weight := Lookup(pers, id);
      WeightVector(nodes, pers)[IdToIdx(nodes)[id]] == if weight.Some? then weight.value else 0.0
  {
    if pers == [] {
    } else {
      WeightAt(nodes, pers[..|pers| - 1], id);
      SlotsInjective(nodes);
      hide IdToIdx;
    }
  }

  /** An earlier occurrence of a repeated id holds nothing. */
  lemma {:induction false} WeightElsewhere(nodes: seq<NodeId>, pers: seq<(NodeId, real)>, i: nat)
    requires i < |nodes| && IdToIdx(nodes)[nodes[i]] != i
    ensures WeightVector(nodes, pers)[i] == 0.0
  {
    if pers == [] {
    } else {
      WeightElsewhere(nodes, pers[..|pers| - 1], i);
      hide IdToIdx;
    }
  }

  /** So the vector has no negative entry exactly when no node's last weight is negative. */
  lemma WeightsNonneg(nodes: seq<NodeId>, pers: seq<(NodeId, real)>)
    ensures Nonneg(WeightVector(nodes, pers))
       <==> forall id :: id in nodes && Lookup(pers, id).Some? ==> Lookup(pers, id).value >= 0.0
  {
    var p := WeightVector(nodes, pers);
    hide IdToIdx, WeightVector, Lookup;
    forall id | id in nodes
      ensures p[IdToIdx(nodes)[id]] == if Lookup(pers, id).Some? then Lookup(pers, id).value else 0.0
    {
      WeightAt(nodes, pers, id);
    }
    forall i | 0 <= i < |nodes| && IdToIdx(nodes)[nodes[i]] != i ensures p[i] == 0.0 {
      WeightElsewhere(nodes, pers, i);
    }
  }

  ghost predicate AnyHit(nodes: seq<NodeId>, pers: seq<(NodeId, real)>) {
    exists k :: 0 <= k < |pers| && pers[k].0 in nodes
  }

  /** Weights of foreign nodes leave every slot empty. */
  lemma NoHitNoWeight(nodes: seq<NodeId>, pers: seq<(NodeId, real)>)
    requires !AnyHit(nodes, pers)
    ensures forall i :: 0 <= i < |nodes| ==> WeightVector(nodes, pers)[i] == 0.0
  {
    forall i | 0 <= i < |nodes| ensures WeightVector(nodes, pers)[i] == 0.0 {
      if IdToIdx(nodes)[nodes[i]] == i {
        WeightAt(nodes, pers, nodes[i]);
        LookupIsListed(pers, nodes[i]);
      } else {
        WeightElsewhere(nodes, pers, i);
      }
    }
  }

  lemma {:induction false} LookupIsListed(pers: seq<(NodeId, real)>, id: NodeId)
    ensures Lookup(pers, id).Some? ==> exists k :: 0 <= k < |pers| && pers[k].0 == id
  {
    if pers == [] {
    } else {
      LookupIsListed(pers[..|pers| - 1], id);
    }
  }

  // ----- what a run returns

  /** A weighted run over an index is the real iteration on its graph, from the weights: stopped as
      the code stops, or not started when no listed node is indexed. */
  lemma WeightedIsWalk(A: Arith<real>, ix: PprIndex<real>, nodes: seq<NodeId>, edges: seq<Edge>, c: Config<real>,
                       pers: seq<(NodeId, real)>)
    returns (w: Walk, m: nat)
    requires IsReal(A) && BuiltFrom(A, ix, nodes, edges, c)
    ensures w == WalkOf(A, nodes, edges, c, WeightVector(nodes, pers))
    ensures w.Ok() && 0.01 <= w.d <= 0.99 && |w.p| == |nodes|
    ensures IndexVectorWeighted(A, ix, pers) == (After(w, m), m)
    ensures if AnyHit(nodes, pers) then StopsAfter(w, c.epsilon, c.maxIterations, m) else m == 0
  {
    var p := WeightVector(nodes, pers);
    w := WalkOf(A, nodes, edges, c, p);
    HeadRealizes(A, nodes, edges, c, p);
    if AnyHit(nodes, pers) {
      m := RunStops(A, HeadSystem(A, nodes, edges, c, p), w, c.epsilon, c.maxIterations);
      BuiltSystem(A, ix, nodes, edges, c, p);
    } else {
      m := 0;
    }
  }

  /** Mass: weights that sum to 1 give scores that sum to 1. From nonnegative weights the scores are
      nonnegative and their sum stays on the side of 1 where the weights' sum is, no nearer to 1:
      they sum to 1 if and only if the weights do. */
  lemma WeightedMass(A: Arith<real>, ix: PprIndex<real>, nodes: seq<NodeId>, edges: seq<Edge>, c: Config<real>,
                     pers: seq<(NodeId, real)>)
    requires IsReal(A) && BuiltFrom(A, ix, nodes, edges, c)
    ensures var v, p := IndexVectorWeighted(A, ix, pers).0, WeightVector(nodes, pers);
      && (Sum(p) == 1.0 ==> Sum(v) == 1.0)
      && (Nonneg(p) ==>
            && Nonneg(v)
            && (Sum(p) <= 1.0 ==> Sum(v) <= Sum(p))
            && (Sum(p) >= 1.0 ==> Sum(v) >= Sum(p))
            && (Sum(v) == 1.0 <==> Sum(p) == 1.0))
  {
    hide *;
    var w, m := WeightedIsWalk(A, ix, nodes, edges, c, pers);
    WalkStart(A, nodes, edges, c, WeightVector(nodes, pers));
    if Sum(w.p) == 1.0 {
      UnitMassKept(w, m);
    }
    if Nonneg(w.p) {
      MassKept(w, m);
    }
  }

  lemma WalkStart(A: Arith<real>, nodes: seq<NodeId>, edges: seq<Edge>, c: Config<real>, p: seq<real>)
    ensures WalkOf(A, nodes, edges, c, p).p == p && WalkOf(A, nodes, edges, c, p).d == Clamp(A, c.damping)
  {
  }

  /** Stopping: nonnegative weights of at most 1 in all bound the rounds as seeds do. */
  lemma WeightedRounds(A: Arith<real>, ix: PprIndex<real>, nodes: seq<NodeId>, edges: seq<Edge>, c: Config<real>,
                       pers: seq<(NodeId, real)>)
    requires IsReal(A) && BuiltFrom(A, ix, nodes, edges, c)
    requires Nonneg(WeightVector(nodes, pers)) && Sum(WeightVector(nodes, pers)) <= 1.0
    ensures var m := IndexVectorWeighted(A, ix, pers).1;
      RoundsBounded(Clamp(A, c.damping), c.epsilon, c.maxIterations, m)
  {
    var w, m := WeightedIsWalk(A, ix, nodes, edges, c, pers);
    assert w.Prior();
    hide IsReal, BuiltFrom, WeightVector, IndexVectorWeighted, StopsAfter, EnoughRounds, Pow;
    if AnyHit(nodes, pers) {
      StoppedRounds(w, c.epsilon, c.maxIterations, m);
    }
  }

  /** Accuracy: as for seeds; with no listed node indexed, the empty vector is the fixed point. */
  lemma WeightedAccuracy(A: Arith<real>, ix: PprIndex<real>, nodes: seq<NodeId>, edges: seq<Edge>, c: Config<real>,
                         pers: seq<(NodeId, real)>)
    returns (w: Walk, m: nat, x: seq<real>)
    requires IsReal(A) && BuiltFrom(A, ix, nodes, edges, c)
    requires Nonneg(WeightVector(nodes, pers)) && Sum(WeightVector(nodes, pers)) <= 1.0
    ensures w == WalkOf(A, nodes, edges, c, WeightVector(nodes, pers)) && w.Ok() && |x| == |w.p| == |nodes|
    ensures IndexVectorWeighted(A, ix, pers) == (After(w, m), m)
    ensures OnlyFixed(w, x)
    ensures m > 0 ==> Norm(Minus(After(w, m), x)) <= Slack(w.d, ChangeAt(w, m))
    ensures m > 0 && ChangeAt(w, m) < c.epsilon ==> Near(w, m, c.epsilon, x)
    ensures if AnyHit(nodes, pers) then m < c.maxIterations ==> m > 0 && ChangeAt(w, m) < c.epsilon
            else After(w, m) == x
  {
    w, m := WeightedIsWalk(A, ix, nodes, edges, c, pers);
    assert w.Prior();
    if AnyHit(nodes, pers) {
      hide *;
      x := StoppedAccuracy(w, c.epsilon, c.maxIterations, m);
    } else {
      NoHitNoWeight(nodes, pers);
      EmptyIsFixed(w);
      assert After(w, 0) == w.p;
      hide *;
      x := OneFixed(w);
    }
  }

  lemma EmptyIsFixed(w: Walk)
    requires w.Ok() && w.Prior() && forall i :: 0 <= i < |w.p| ==> w.p[i] == 0.0
    ensures Fixed(w, w.p)
  {
    hide Lin;
    LinNorm(w, w.p);
    SumZero(AbsAll(w.p));
    NormLaws(Lin(w, w.p));
    assert Step(w, w.p) == w.p;
  }

  /** A lone node that nothing leaves, weighing 2: one round at damping 0.99 makes it 3.98. */
  lemma WeightTwoGrows(A: Arith<real>, ix: PprIndex<real>, c: Config<real>)
    requires IsReal(A) && BuiltFrom(A, ix, [7], [], c) && c.damping == 0.99 && c.maxIterations == 1
    ensures IndexVectorWeighted(A, ix, [(7, 2.0)]) == ([3.98], 1)
  {
    var nodes, pers := [7], [(7, 2.0)];
    var w, m := WeightedIsWalk(A, ix, nodes, [], c, pers);
    assert pers[0].0 in nodes;
    WeightAt(nodes, pers, 7);
    assert w.p == [2.0];
    assert w.d == 0.99;
    LoneSlot(w);
    assert After(w, 1) == Step(w, After(w, 0)) && After(w, 0) == w.p;
  }

  lemma LoneSlot(w: Walk)
    requires w.Ok() && w.evs == [] && w.p == [2.0] && w.d == 0.99
    ensures Step(w, [2.0]) == [3.98]
  {
    var part := DanglingPart(Out([], 1), [2.0]);
    assert part == [2.0];
    assert part[..0] == [] && Sum(part) == Sum([]) + 2.0;
    assert Lin(w, [2.0]) == [4.0];
  }
}
