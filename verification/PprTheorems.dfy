/** The run a caller asks for, over the reals: what its vector weighs, when it stops, how close
    it is, and which nodes it scores. */
module PprTheorems {
  import opened Numbers
  import opened PprSpec
  import opened Sums
  import opened PprReal
  import opened PprMass
  import opened PprConvergence
  import opened PprFixedPoint

  // ----- the walk behind a run

  function WalkOf(A: Arith<real>, nodes: seq<NodeId>, edges: seq<Edge>, c: Config<real>, p: seq<real>): Walk {
    Walk(Events(A, c, IdToIdx(nodes), edges), p, Clamp(A, c.damping))
  }

  lemma {:induction false} EventsPositive(A: Arith<real>, c: Config<real>, idx: map<NodeId, nat>, edges: seq<Edge>)
    requires IsReal(A)
    ensures Positive(Events(A, c, idx, edges))
  {
    if edges == [] {
    } else {
      var init, last := edges[..|edges| - 1], edges[|edges| - 1];
      EventsPositive(A, c, idx, init);
      EdgeEventsPositive(A, c, idx, last);
      PositiveConcat(Events(A, c, idx, init), EdgeEvents(A, c, idx, last));
    }
  }

  lemma EdgeEventsPositive(A: Arith<real>, c: Config<real>, idx: map<NodeId, nat>, e: Edge)
    requires IsReal(A)
    ensures Positive(EdgeEvents(A, c, idx, e))
  {
  }

  lemma PositiveConcat(a: seq<Event<real>>, b: seq<Event<real>>)
    requires Positive(a) && Positive(b)
    ensures Positive(a + b)
  {
  }

  lemma HeadRealizes(A: Arith<real>, nodes: seq<NodeId>, edges: seq<Edge>, c: Config<real>, p: seq<real>)
    requires IsReal(A) && |p| == |nodes|
    ensures var w := WalkOf(A, nodes, edges, c, p);
      && w.Ok() && 0.01 <= w.d <= 0.99
      && Simulates(A, HeadSystem(A, nodes, edges, c, p), w)
  {
    var w := WalkOf(A, nodes, edges, c, p);
    EventsInRange(A, c, IdToIdx(nodes), |nodes|, edges);
    EventsPositive(A, c, IdToIdx(nodes), edges);
    assert w.Ok();
    hide IsReal;
    assert Realizes(A, HeadSystem(A, nodes, edges, c, p), w);
    RealizesSimulates(A, HeadSystem(A, nodes, edges, c, p), w);
  }

  // ----- the personalization a seed list makes

  /** The seeds that are nodes, each once. */
  function HitSet(idx: map<NodeId, nat>, seeds: seq<NodeId>): set<NodeId> {
    set id | id in seeds && id in idx
  }

  ghost predicate Injective(idx: map<NodeId, nat>, n: nat) {
    && (forall a :: a in idx ==> idx[a] < n)
    && (forall a, b :: a in idx && b in idx && idx[a] == idx[b] ==> a == b)
  }

  lemma SlotsInjective(nodes: seq<NodeId>)
    ensures Injective(IdToIdx(nodes), |nodes|)
  {
  }

  lemma HitSetSnoc(idx: map<NodeId, nat>, seeds: seq<NodeId>)
    requires seeds != []
    ensures var s := seeds[|seeds| - 1];
      HitSet(idx, seeds) == HitSet(idx, seeds[..|seeds| - 1]) + (if s in idx then {s} else {})
  {
    assert seeds == seeds[..|seeds| - 1] + [seeds[|seeds| - 1]];
  }

  /** A slot holds the weight exactly when a seed names it. */
  lemma {:induction false} PersonalizeAt(weight: real, idx: map<NodeId, nat>, n: nat, seeds: seq<NodeId>, id: NodeId)
    requires Injective(idx, n) && id in idx
    ensures Personalize(0.0, weight, idx, n, seeds)[idx[id]] == if id in seeds then weight else 0.0
  {
    if seeds == [] {
    } else {
      var init, s := seeds[..|seeds| - 1], seeds[|seeds| - 1];
      assert seeds == init + [s];
      PersonalizeAt(weight, idx, n, init, id);
    }
  }

  lemma {:induction false} PersonalizeElsewhere(weight: real, idx: map<NodeId, nat>, n: nat, seeds: seq<NodeId>, i: nat)
    requires Injective(idx, n) && i < n && forall id :: id in idx ==> idx[id] != i
    ensures Personalize(0.0, weight, idx, n, seeds)[i] == 0.0
  {
    if seeds == [] {
    } else {
      PersonalizeElsewhere(weight, idx, n, seeds[..|seeds| - 1], i);
    }
  }

  lemma {:induction false} PersonalizeNonneg(weight: real, idx: map<NodeId, nat>, n: nat, seeds: seq<NodeId>)
    requires Injective(idx, n) && weight >= 0.0
    ensures Nonneg(Personalize(0.0, weight, idx, n, seeds))
  {
    if seeds == [] {
    } else {
      PersonalizeNonneg(weight, idx, n, seeds[..|seeds| - 1]);
    }
  }

  /** The mass set: one weight per distinct hit. */
  lemma {:induction false} PersonalizeMass(weight: real, idx: map<NodeId, nat>, n: nat, seeds: seq<NodeId>)
    requires Injective(idx, n)
    ensures Sum(Personalize(0.0, weight, idx, n, seeds)) == Prod(|HitSet(idx, seeds)| as real, weight)
  {
    var hits := HitSet(idx, seeds);
    if seeds == [] {
      assert hits == {};
      SumZero(Personalize(0.0, weight, idx, n, seeds));
      ProdLaws(0.0, weight, 0.0);
    } else {
      hide Sum, Prod;
      var init, s := seeds[..|seeds| - 1], seeds[|seeds| - 1];
      var before := HitSet(idx, init);
      PersonalizeMass(weight, idx, n, init);
      HitSetSnoc(idx, seeds);
      if s in idx {
        PersonalizeAt(weight, idx, n, init, s);
        SumUpdate(Personalize(0.0, weight, idx, n, init), idx[s], weight);
        if s in before {
          assert hits == before;
        } else {
          assert |hits| == |before| + 1;
          ProdPlusOne(|before|, weight);
        }
      } else {
        assert hits == before;
      }
    }
  }

  lemma ProdPlusOne(k: nat, x: real)
    ensures Prod((k + 1) as real, x) == Prod(k as real, x) + x
  {
    assert (k + 1) as real == k as real + 1.0;
  }

  /** No node is listed twice as a seed. */
  ghost predicate NoHitTwice(idx: map<NodeId, nat>, seeds: seq<NodeId>) {
    forall i, j :: 0 <= i < j < |seeds| && seeds[i] == seeds[j] ==> seeds[i] !in idx
  }

  lemma NoHitTwiceSnoc(idx: map<NodeId, nat>, seeds: seq<NodeId>)
    requires seeds != []
    ensures var init, s := seeds[..|seeds| - 1], seeds[|seeds| - 1];
      NoHitTwice(idx, seeds) <==> NoHitTwice(idx, init) && (s in idx ==> s !in init)
  {
    var init, s := seeds[..|seeds| - 1], seeds[|seeds| - 1];
    if NoHitTwice(idx, seeds) && s in init {
      var i :| 0 <= i < |init| && init[i] == s;
      assert seeds[i] == seeds[|seeds| - 1];
    }
    if !NoHitTwice(idx, seeds) {
      var i, j :| 0 <= i < j < |seeds| && seeds[i] == seeds[j] && seeds[i] in idx;
      assert init[i] == seeds[i] && (j < |init| ==> init[j] == seeds[j]);
    }
    if !NoHitTwice(idx, init) {
      var i, j :| 0 <= i < j < |init| && init[i] == init[j] && init[i] in idx;
      assert seeds[i] == init[i] && seeds[j] == init[j];
    }
  }

  /** Hits count repeats; they are the distinct hits exactly when no node is a seed twice. */
  lemma {:induction false} HitsAtLeastDistinct(idx: map<NodeId, nat>, seeds: seq<NodeId>)
    ensures |HitSet(idx, seeds)| <= Hits(idx, seeds)
    ensures Hits(idx, seeds) > 0 ==> |HitSet(idx, seeds)| > 0
    ensures |HitSet(idx, seeds)| == Hits(idx, seeds) <==> NoHitTwice(idx, seeds)
  {
    if seeds == [] {
      assert HitSet(idx, seeds) == {};
    } else {
      var init, s := seeds[..|seeds| - 1], seeds[|seeds| - 1];
      HitsAtLeastDistinct(idx, init);
      HitSetSnoc(idx, seeds);
      NoHitTwiceSnoc(idx, seeds);
      hide NoHitTwice;
      if s in idx {
        if s in HitSet(idx, init) {
          assert HitSet(idx, seeds) == HitSet(idx, init);
          assert s in init;
        } else {
          assert |HitSet(idx, seeds)| == |HitSet(idx, init)| + 1;
        }
      } else {
        assert HitSet(idx, seeds) == HitSet(idx, init);
      }
    }
  }

  /** What the seed weights sum to: distinct hits over hits. */
  function SeedMass(idx: map<NodeId, nat>, seeds: seq<NodeId>): real
    requires Hits(idx, seeds) > 0
  {
    |HitSet(idx, seeds)| as real / Hits(idx, seeds) as real
  }

  function SeedVector(nodes: seq<NodeId>, seeds: seq<NodeId>): (p: seq<real>)
    requires Hits(IdToIdx(nodes), seeds) > 0
    ensures |p| == |nodes|
  {
    Personalize(0.0, 1.0 / Hits(IdToIdx(nodes), seeds) as real, IdToIdx(nodes), |nodes|, seeds)
  }

  lemma SeedPrior(nodes: seq<NodeId>, seeds: seq<NodeId>)
    requires Hits(IdToIdx(nodes), seeds) > 0
    ensures var p := SeedVector(nodes, seeds);
      && Nonneg(p) && Sum(p) == SeedMass(IdToIdx(nodes), seeds)
    ensures 0.0 < SeedMass(IdToIdx(nodes), seeds) <= 1.0
    ensures SeedMass(IdToIdx(nodes), seeds) == 1.0 <==> NoHitTwice(IdToIdx(nodes), seeds)
  {
    var idx := IdToIdx(nodes);
    SlotsInjective(nodes);
    var h, s := Hits(idx, seeds) as real, |HitSet(idx, seeds)| as real;
    HitsAtLeastDistinct(idx, seeds);
    hide IdToIdx, Personalize, Sum, HitSet, Hits, NoHitTwice;
    DivNonneg(1.0, h);
    PersonalizeNonneg(1.0 / h, idx, |nodes|, seeds);
    PersonalizeMass(1.0 / h, idx, |nodes|, seeds);
    ShareOut(s, h);
  }

  lemma ShareOut(s: real, h: real)
    requires 0.0 < s <= h
    ensures Prod(s, 1.0 / h) == s / h
    ensures 0.0 < s / h <= 1.0 && (s == h <==> s / h == 1.0)
  {
    assert s / h * h == s;
    assert 1.0 / h * h == 1.0;
    assert (s * (1.0 / h)) * h == s;
  }

  // ----- what a run returns

  /** The run from `seeds` returns the walk's vector after its stop round. */
  lemma HeadIsWalk(A: Arith<real>, nodes: seq<NodeId>, edges: seq<Edge>, seeds: seq<NodeId>, c: Config<real>)
    returns (w: Walk, m: nat)
    requires IsReal(A) && Hits(IdToIdx(nodes), seeds) > 0
    ensures w == WalkOf(A, nodes, edges, c, SeedVector(nodes, seeds))
    ensures w.Ok() && w.Prior() && 0.01 <= w.d <= 0.99 && |w.p| == |nodes|
    ensures StopsAfter(w, c.epsilon, c.maxIterations, m)
    ensures HeadVector(A, nodes, edges, seeds, c) == (After(w, m), m)
  {
    var p := SeedVector(nodes, seeds);
    w := WalkOf(A, nodes, edges, c, p);
    HeadRealizes(A, nodes, edges, c, p);
    SeedPrior(nodes, seeds);
    m := RunStops(A, HeadSystem(A, nodes, edges, c, p), w, c.epsilon, c.maxIterations);
    HeadUnfolds(A, nodes, edges, seeds, c);
  }

  lemma HeadUnfolds(A: Arith<real>, nodes: seq<NodeId>, edges: seq<Edge>, seeds: seq<NodeId>, c: Config<real>)
    requires IsReal(A) && Hits(IdToIdx(nodes), seeds) > 0
    ensures var p := SeedVector(nodes, seeds);
      HeadVector(A, nodes, edges, seeds, c)
      == Rounds(A, HeadSystem(A, nodes, edges, c, p), c.epsilon, p, c.maxIterations)
  {
    hide Rounds, HeadSystem;
    if nodes == [] {
      NoHits(seeds);
    }
  }

  lemma {:induction false} NoHits(seeds: seq<NodeId>)
    ensures Hits(IdToIdx([]), seeds) == 0
  {
    if seeds == [] {
    } else {
      NoHits(seeds[..|seeds| - 1]);
    }
  }

  /** Mass: the scores are nonnegative and never sum to more than distinct hits over hits,
      where they start; they sum to exactly 1 if and only if no node is listed twice as a seed. */
  lemma RunMass(A: Arith<real>, nodes: seq<NodeId>, edges: seq<Edge>, seeds: seq<NodeId>, c: Config<real>)
    requires IsReal(A) && Hits(IdToIdx(nodes), seeds) > 0
    ensures var v := HeadVector(A, nodes, edges, seeds, c).0;
      && Nonneg(v) && Sum(v) <= SeedMass(IdToIdx(nodes), seeds) <= 1.0
      && (Sum(v) == 1.0 <==> NoHitTwice(IdToIdx(nodes), seeds))
    ensures Sum(SeedVector(nodes, seeds)) == SeedMass(IdToIdx(nodes), seeds)
  {
    var w, m := HeadIsWalk(A, nodes, edges, seeds, c);
    SeedPrior(nodes, seeds);
    MassKept(w, m);
  }

  /** One node, listed twice as a seed: the scores start at one half in all and never rise above it. */
  lemma RepeatedSeedLosesMass(A: Arith<real>, edges: seq<Edge>, c: Config<real>)
    requires IsReal(A)
    ensures var (nodes, seeds) := ([7], [7, 7]);
      && Hits(IdToIdx(nodes), seeds) > 0
      && Sum(SeedVector(nodes, seeds)) == 0.5
      && Sum(HeadVector(A, nodes, edges, seeds, c).0) <= 0.5
  {
    SevenTwice();
    hide *;
    RunMass(A, [7], edges, [7, 7], c);
  }

  lemma SevenTwice()
    ensures Hits(IdToIdx([7]), [7, 7]) > 0 && SeedMass(IdToIdx([7]), [7, 7]) == 0.5
  {
    var idx := IdToIdx([7]);
    assert 7 in idx;
    hide IdToIdx;
    assert [7, 7][..1] == [7] && [7][..0] == [];
    assert Hits(idx, [7]) == 1 && Hits(idx, [7, 7]) == 2;
    assert HitSet(idx, [7, 7]) == {7};
  }

  /** Stopping: within the cap, and by the first round whose bound is below epsilon; a positive
      epsilon alone bounds the rounds, whatever the graph and the cap. */
  lemma RunRounds(A: Arith<real>, nodes: seq<NodeId>, edges: seq<Edge>, seeds: seq<NodeId>, c: Config<real>)
    requires IsReal(A) && Hits(IdToIdx(nodes), seeds) > 0
    ensures var m := HeadVector(A, nodes, edges, seeds, c).1;
      RoundsBounded(Clamp(A, c.damping), c.epsilon, c.maxIterations, m)
  {
    var w, m := HeadIsWalk(A, nodes, edges, seeds, c);
    StoppedRounds(w, c.epsilon, c.maxIterations, m);
    hide RoundsBounded, HeadVector;
  }

  /** Accuracy: the run's walk has exactly one fixed point. The vector returned is within
      `d / (1 - d)` times its last change of it, so within `d / (1 - d) * epsilon` when that change
      is below epsilon, as it is whenever the cap did not end the run; then no further round
      would move it further than that either. */
  lemma RunAccuracy(A: Arith<real>, nodes: seq<NodeId>, edges: seq<Edge>, seeds: seq<NodeId>, c: Config<real>)
    returns (w: Walk, m: nat, x: seq<real>)
    requires IsReal(A) && Hits(IdToIdx(nodes), seeds) > 0
    ensures w == WalkOf(A, nodes, edges, c, SeedVector(nodes, seeds)) && w.Ok() && |x| == |w.p| == |nodes|
    ensures HeadVector(A, nodes, edges, seeds, c) == (After(w, m), m)
    ensures OnlyFixed(w, x)
    ensures m > 0 ==> Norm(Minus(After(w, m), x)) <= Slack(w.d, ChangeAt(w, m))
    ensures m > 0 && ChangeAt(w, m) < c.epsilon ==> Near(w, m, c.epsilon, x)
    ensures m < c.maxIterations ==> m > 0 && ChangeAt(w, m) < c.epsilon
  {
    hide *;
    w, m := HeadIsWalk(A, nodes, edges, seeds, c);
    x := StoppedAccuracy(w, c.epsilon, c.maxIterations, m);
  }
}
