/** Which nodes score: exactly those within as many hops of a seed as rounds were run. */
module PprSupport {
  import opened Numbers
  import opened PprSpec
  import opened Sums
  import opened PprReal
  import opened PprMass
  import opened PprTheorems

  // ----- slots

  ghost predicate FedBy(evs: seq<Event<real>>, v: seq<real>, i: nat)
    requires EventsIn(evs, |v|)
  {
    exists k :: 0 <= k < |evs| && evs[k].target == i && v[evs[k].source] > 0.0
  }

  lemma {:induction false} PushPositive(evs: seq<Event<real>>, n: nat, c: seq<real>, i: nat)
    requires EventsIn(evs, n) && Positive(evs) && |c| == n && Nonneg(c) && i < n
    ensures Push(evs, n, c)[i] > 0.0 <==> FedBy(evs, c, i)
  {
    hide Prod;
    if evs == [] {
    } else {
      var init, e := evs[..|evs| - 1], evs[|evs| - 1];
      PushPositive(init, n, c, i);
      PushNonneg(init, n, c);
      ProdLaws(c[e.source], e.w, 0.0);
      ProdLaws(0.0, e.w, 0.0);
      FedSnoc(evs, c, i);
    }
  }

  lemma FedSnoc(evs: seq<Event<real>>, v: seq<real>, i: nat)
    requires EventsIn(evs, |v|) && evs != []
    ensures var e := evs[|evs| - 1];
      FedBy(evs, v, i) <==> FedBy(evs[..|evs| - 1], v, i) || (e.target == i && v[e.source] > 0.0)
  {
    var init, e := evs[..|evs| - 1], evs[|evs| - 1];
    if FedBy(init, v, i) {
      var k :| 0 <= k < |init| && init[k].target == i && v[init[k].source] > 0.0;
      assert evs[k] == init[k];
    }
    if FedBy(evs, v, i) {
      var k :| 0 <= k < |evs| && evs[k].target == i && v[evs[k].source] > 0.0;
      if k < |init| {
        assert init[k] == evs[k];
      }
    }
  }

  lemma CoefPositive(evs: seq<Event<real>>, v: seq<real>, k: nat)
    requires EventsIn(evs, |v|) && Positive(evs) && Nonneg(v) && k < |evs|
    ensures var j := evs[k].source; Coefs(Out(evs, |v|), v)[j] > 0.0 <==> v[j] > 0.0
  {
    var j := evs[k].source;
    OutPositive(evs, |v|, j);
    hide Out;
    QuotientPositive(v[j], Out(evs, |v|)[j]);
  }

  lemma QuotientPositive(a: real, o: real)
    requires a >= 0.0 && o > 0.0
    ensures a / o > 0.0 <==> a > 0.0
  {
    DivNonneg(a, o);
  }

  /** A round scores a slot exactly when it is seeded or fed by a scoring slot. */
  lemma StepPositive(w: Walk, v: seq<real>, i: nat)
    requires w.Ok() && w.Prior() && |v| == |w.p| && Nonneg(v) && i < |v|
    ensures Step(w, v)[i] > 0.0 <==> w.p[i] > 0.0 || FedBy(w.evs, v, i)
  {
    var c := Coefs(Out(w.evs, |v|), v);
    LinNonneg(w, v);
    CoefsNonneg(Out(w.evs, |v|), v);
    PushPositive(w.evs, |v|, c, i);
    PushNonneg(w.evs, |v|, c);
    assert FedBy(w.evs, c, i) <==> FedBy(w.evs, v, i) by {
      forall k | 0 <= k < |w.evs| ensures c[w.evs[k].source] > 0.0 <==> v[w.evs[k].source] > 0.0 {
        CoefPositive(w.evs, v, k);
      }
    }
    hide Push, Coefs, Out, Sum, DanglingPart;
    var pushed := Push(w.evs, |v|, c)[i];
    assert Lin(w, v)[i] == pushed + Handed(w, v) * w.p[i];
    PositiveParts(w.d, w.p[i], pushed, Handed(w, v), Lin(w, v)[i], Step(w, v)[i]);
  }

  lemma PositiveParts(d: real, p: real, pushed: real, back: real, l: real, s: real)
    requires 0.0 < d < 1.0 && p >= 0.0 && pushed >= 0.0 && back >= 0.0
    requires l == pushed + back * p && s == (1.0 - d) * p + d * l
    ensures s > 0.0 <==> p > 0.0 || pushed > 0.0
  {
    assert back * p >= 0.0;
    if p > 0.0 {
      assert (1.0 - d) * p > 0.0;
      assert d * l >= 0.0;
    } else if pushed > 0.0 {
      assert d * l > 0.0;
    }
  }

  ghost predicate ReachedIn(w: Walk, k: nat, i: nat)
    requires w.Ok() && i < |w.p|
  {
    w.p[i] > 0.0
    || (k > 0 && exists e :: 0 <= e < |w.evs| && w.evs[e].target == i && ReachedIn(w, k - 1, w.evs[e].source))
  }

  lemma {:induction false} SupportIsReach(w: Walk, k: nat, i: nat)
    requires w.Ok() && w.Prior() && i < |w.p|
    ensures After(w, k)[i] > 0.0 <==> ReachedIn(w, k, i)
  {
    hide Step;
    if k == 0 {
    } else {
      var v := After(w, k - 1);
      MassKept(w, k - 1);
      StepPositive(w, v, i);
      forall e | 0 <= e < |w.evs| ensures v[w.evs[e].source] > 0.0 <==> ReachedIn(w, k - 1, w.evs[e].source) {
        SupportIsReach(w, k - 1, w.evs[e].source);
      }
    }
  }

  // ----- nodes

  /** Activation flows from `a` to `b` along `e` under the config. */
  ghost predicate FlowsAlong(A: Arith<real>, c: Config<real>, e: Edge, a: NodeId, b: NodeId) {
    && WeightOf(A, c, e.category) > 0.0
    && match c.direction
       case Forward => e.from == a && e.to == b
       case Backward => e.to == a && e.from == b
       case Undirected => (e.from == a && e.to == b) || (e.to == a && e.from == b)
  }

  ghost predicate Hop(A: Arith<real>, c: Config<real>, nodes: seq<NodeId>, edges: seq<Edge>, a: NodeId, b: NodeId) {
    && a in nodes && b in nodes
    && exists k :: 0 <= k < |edges| && FlowsAlong(A, c, edges[k], a, b)
  }

  /** A walk over nodes from a seed. */
  ghost predicate IsPath(A: Arith<real>, c: Config<real>, nodes: seq<NodeId>, edges: seq<Edge>, seeds: seq<NodeId>,
                         path: seq<NodeId>)
  {
    && path != [] && path[0] in seeds && path[0] in nodes
    && forall k :: 0 < k < |path| ==> Hop(A, c, nodes, edges, path[k - 1], path[k])
  }

  /** `id` is at most `k` hops from a seed. */
  ghost predicate Within(A: Arith<real>, c: Config<real>, nodes: seq<NodeId>, edges: seq<Edge>, seeds: seq<NodeId>,
                         k: nat, id: NodeId)
  {
    exists path :: IsPath(A, c, nodes, edges, seeds, path) && |path| <= k + 1 && path[|path| - 1] == id
  }

  ghost predicate HasEvent(evs: seq<Event<real>>, s: nat, t: nat) {
    exists k :: 0 <= k < |evs| && evs[k].source == s && evs[k].target == t
  }

  lemma HasEventConcat(a: seq<Event<real>>, b: seq<Event<real>>, s: nat, t: nat)
    ensures HasEvent(a + b, s, t) <==> HasEvent(a, s, t) || HasEvent(b, s, t)
  {
    if HasEvent(a, s, t) {
      var k :| 0 <= k < |a| && a[k].source == s && a[k].target == t;
      assert (a + b)[k] == a[k];
    }
    if HasEvent(b, s, t) {
      var k :| 0 <= k < |b| && b[k].source == s && b[k].target == t;
      assert (a + b)[|a| + k] == b[k];
    }
  }

  lemma EdgeHasEvent(A: Arith<real>, c: Config<real>, idx: map<NodeId, nat>, n: nat, e: Edge, a: NodeId, b: NodeId)
    requires IsReal(A) && Injective(idx, n) && a in idx && b in idx
    ensures HasEvent(EdgeEvents(A, c, idx, e), idx[a], idx[b]) <==> FlowsAlong(A, c, e, a, b)
  {
    var evs := EdgeEvents(A, c, idx, e);
    if FlowsAlong(A, c, e, a, b) {
      var k := if c.direction.Undirected? && !(e.from == a && e.to == b) then 1 else 0;
      assert evs[k].source == idx[a] && evs[k].target == idx[b];
    }
  }

  lemma {:induction false} HopIsEvent(A: Arith<real>, c: Config<real>, idx: map<NodeId, nat>, n: nat, edges: seq<Edge>,
                                      a: NodeId, b: NodeId)
    requires IsReal(A) && Injective(idx, n) && a in idx && b in idx
    ensures HasEvent(Events(A, c, idx, edges), idx[a], idx[b])
       <==> exists k :: 0 <= k < |edges| && FlowsAlong(A, c, edges[k], a, b)
  {
    if edges == [] {
    } else {
      var init, e := edges[..|edges| - 1], edges[|edges| - 1];
      HopIsEvent(A, c, idx, n, init, a, b);
      EdgeHasEvent(A, c, idx, n, e, a, b);
      HasEventConcat(Events(A, c, idx, init), EdgeEvents(A, c, idx, e), idx[a], idx[b]);
      hide EdgeEvents, Events, HasEvent, FlowsAlong;
      if exists k :: 0 <= k < |init| && FlowsAlong(A, c, init[k], a, b) {
        var k :| 0 <= k < |init| && FlowsAlong(A, c, init[k], a, b);
        assert edges[k] == init[k];
      }
      if exists k :: 0 <= k < |edges| && FlowsAlong(A, c, edges[k], a, b) {
        var k :| 0 <= k < |edges| && FlowsAlong(A, c, edges[k], a, b);
        assert k < |init| ==> init[k] == edges[k];
      }
    }
  }

  /** Every event runs between slots that carry a node. */
  lemma {:induction false} EventsBetweenNodes(A: Arith<real>, c: Config<real>, idx: map<NodeId, nat>, edges: seq<Edge>,
                                              k: nat)
    returns (a: NodeId, b: NodeId)
    requires k < |Events(A, c, idx, edges)|
    ensures a in idx && b in idx
    ensures Events(A, c, idx, edges)[k].source == idx[a] && Events(A, c, idx, edges)[k].target == idx[b]
  {
    var init, e := edges[..|edges| - 1], edges[|edges| - 1];
    var evs := Events(A, c, idx, init);
    if k < |evs| {
      a, b := EventsBetweenNodes(A, c, idx, init, k);
    } else {
      var x := EdgeEvents(A, c, idx, e)[k - |evs|];
      if x.source == idx[e.from] && x.target == idx[e.to] {
        a, b := e.from, e.to;
      } else {
        a, b := e.to, e.from;
      }
    }
  }

  /** Reaching by a path, one hop at a time. */
  lemma WithinUnfolds(A: Arith<real>, c: Config<real>, nodes: seq<NodeId>, edges: seq<Edge>, seeds: seq<NodeId>,
                      k: nat, id: NodeId)
    requires id in nodes
    ensures Within(A, c, nodes, edges, seeds, k, id)
       <==> || id in seeds
            || (k > 0 && exists a :: Within(A, c, nodes, edges, seeds, k - 1, a) && Hop(A, c, nodes, edges, a, id))
  {
    hide Hop;
    if id in seeds {
      assert IsPath(A, c, nodes, edges, seeds, [id]) && [id][|[id]| - 1] == id;
    }
    if k > 0 && exists a :: Within(A, c, nodes, edges, seeds, k - 1, a) && Hop(A, c, nodes, edges, a, id) {
      var a :| Within(A, c, nodes, edges, seeds, k - 1, a) && Hop(A, c, nodes, edges, a, id);
      var path :| IsPath(A, c, nodes, edges, seeds, path) && |path| <= k && path[|path| - 1] == a;
      PathSnoc(A, c, nodes, edges, seeds, path, id);
      assert (path + [id])[|path + [id]| - 1] == id;
    }
    if Within(A, c, nodes, edges, seeds, k, id) {
      var path :| IsPath(A, c, nodes, edges, seeds, path) && |path| <= k + 1 && path[|path| - 1] == id;
      if |path| > 1 {
        PathInit(A, c, nodes, edges, seeds, path);
        var init := path[..|path| - 1];
        assert Within(A, c, nodes, edges, seeds, k - 1, init[|init| - 1]);
      }
    }
  }

  lemma PathInit(A: Arith<real>, c: Config<real>, nodes: seq<NodeId>, edges: seq<Edge>, seeds: seq<NodeId>,
                 path: seq<NodeId>)
    requires IsPath(A, c, nodes, edges, seeds, path) && |path| > 1
    ensures IsPath(A, c, nodes, edges, seeds, path[..|path| - 1])
    ensures Hop(A, c, nodes, edges, path[..|path| - 1][|path| - 2], path[|path| - 1])
  {
    hide Hop;
    assert path[..|path| - 1][|path| - 2] == path[|path| - 2];
  }

  lemma HopIsSlotEvent(A: Arith<real>, c: Config<real>, nodes: seq<NodeId>, edges: seq<Edge>, a: NodeId, b: NodeId)
    requires IsReal(A) && a in nodes && b in nodes
    ensures Hop(A, c, nodes, edges, a, b)
       <==> HasEvent(Events(A, c, IdToIdx(nodes), edges), IdToIdx(nodes)[a], IdToIdx(nodes)[b])
  {
    SlotsInjective(nodes);
    HopIsEvent(A, c, IdToIdx(nodes), |nodes|, edges, a, b);
  }

  /** The path and the slot views of reaching agree. */
  lemma {:induction false} ReachIsPath(A: Arith<real>, nodes: seq<NodeId>, edges: seq<Edge>, seeds: seq<NodeId>,
                                       c: Config<real>, w: Walk, k: nat, id: NodeId)
    requires IsReal(A) && Hits(IdToIdx(nodes), seeds) > 0 && id in nodes
    requires w == WalkOf(A, nodes, edges, c, SeedVector(nodes, seeds)) && w.Ok()
    ensures ReachedIn(w, k, IdToIdx(nodes)[id]) <==> Within(A, c, nodes, edges, seeds, k, id)
    decreases k
  {
    var idx := IdToIdx(nodes);
    SeededSlot(nodes, seeds, id);
    SlotsInjective(nodes);
    WithinUnfolds(A, c, nodes, edges, seeds, k, id);
    hide IdToIdx, SeedVector, Events, Within, Hop, IsReal;
    if k > 0 && exists e :: 0 <= e < |w.evs| && w.evs[e].target == idx[id] && ReachedIn(w, k - 1, w.evs[e].source) {
      var e :| 0 <= e < |w.evs| && w.evs[e].target == idx[id] && ReachedIn(w, k - 1, w.evs[e].source);
      var a, b := EventsBetweenNodes(A, c, idx, edges, e);
      ReachIsPath(A, nodes, edges, seeds, c, w, k - 1, a);
      HopIsSlotEvent(A, c, nodes, edges, a, id);
      assert HasEvent(w.evs, idx[a], idx[id]);
    }
    if k > 0 && exists a :: Within(A, c, nodes, edges, seeds, k - 1, a) && Hop(A, c, nodes, edges, a, id) {
      var a :| Within(A, c, nodes, edges, seeds, k - 1, a) && Hop(A, c, nodes, edges, a, id);
      HopEnds(A, c, nodes, edges, a, id);
      ReachIsPath(A, nodes, edges, seeds, c, w, k - 1, a);
      HopIsSlotEvent(A, c, nodes, edges, a, id);
      assert HasEvent(w.evs, idx[a], idx[id]);
    }
  }

  lemma HopEnds(A: Arith<real>, c: Config<real>, nodes: seq<NodeId>, edges: seq<Edge>, a: NodeId, b: NodeId)
    requires Hop(A, c, nodes, edges, a, b)
    ensures a in nodes && b in nodes
  {
  }

  lemma PathSnoc(A: Arith<real>, c: Config<real>, nodes: seq<NodeId>, edges: seq<Edge>, seeds: seq<NodeId>,
                 path: seq<NodeId>, id: NodeId)
    requires IsPath(A, c, nodes, edges, seeds, path) && Hop(A, c, nodes, edges, path[|path| - 1], id)
    ensures IsPath(A, c, nodes, edges, seeds, path + [id])
  {
    hide Hop;
    var q := path + [id];
    forall k | 0 < k < |q| ensures Hop(A, c, nodes, edges, q[k - 1], q[k]) {
      if k < |path| {
        assert q[k - 1] == path[k - 1] && q[k] == path[k];
      }
    }
  }

  lemma SeededSlot(nodes: seq<NodeId>, seeds: seq<NodeId>, id: NodeId)
    requires Hits(IdToIdx(nodes), seeds) > 0 && id in nodes
    ensures SeedVector(nodes, seeds)[IdToIdx(nodes)[id]] > 0.0 <==> id in seeds
  {
    SlotsInjective(nodes);
    var weight := 1.0 / Hits(IdToIdx(nodes), seeds) as real;
    DivNonneg(1.0, Hits(IdToIdx(nodes), seeds) as real);
    PersonalizeAt(weight, IdToIdx(nodes), |nodes|, seeds, id);
  }

  /** An earlier occurrence of a repeated id never scores. */
  lemma {:induction false} DeadSlot(A: Arith<real>, nodes: seq<NodeId>, edges: seq<Edge>, seeds: seq<NodeId>,
                                    c: Config<real>, w: Walk, k: nat, i: nat)
    requires IsReal(A) && Hits(IdToIdx(nodes), seeds) > 0 && i < |nodes| && IdToIdx(nodes)[nodes[i]] != i
    requires w == WalkOf(A, nodes, edges, c, SeedVector(nodes, seeds)) && w.Ok() && w.Prior()
    ensures After(w, k)[i] == 0.0
  {
    var idx := IdToIdx(nodes);
    SlotsInjective(nodes);
    SupportIsReach(w, k, i);
    MassKept(w, k);
    forall id | id in idx ensures idx[id] != i {
      assert nodes[idx[id]] == id;
    }
    PersonalizeElsewhere(1.0 / Hits(idx, seeds) as real, idx, |nodes|, seeds, i);
    hide IdToIdx, Events, After;
    if ReachedIn(w, k, i) {
      var e :| 0 <= e < |w.evs| && w.evs[e].target == i && ReachedIn(w, k - 1, w.evs[e].source);
      var a, b := EventsBetweenNodes(A, c, idx, edges, e);
    }
  }

  /** The scored nodes of a run of `m` rounds are exactly those within `m` hops of a seed. */
  lemma SupportIsBoundedReach(A: Arith<real>, nodes: seq<NodeId>, edges: seq<Edge>, seeds: seq<NodeId>,
                              c: Config<real>, id: NodeId)
    requires IsReal(A) && Hits(IdToIdx(nodes), seeds) > 0 && id in nodes
    ensures var (v, m) := HeadVector(A, nodes, edges, seeds, c);
      && |v| == |nodes|
      && (v[IdToIdx(nodes)[id]] > 0.0 <==> Within(A, c, nodes, edges, seeds, m, id))
      && (forall i :: 0 <= i < |nodes| && IdToIdx(nodes)[nodes[i]] != i ==> v[i] == 0.0)
  {
    var w, m := HeadIsWalk(A, nodes, edges, seeds, c);
    hide HeadVector, After, Within, WalkOf, ReachedIn;
    SupportIsReach(w, m, IdToIdx(nodes)[id]);
    ReachIsPath(A, nodes, edges, seeds, c, w, m, id);
    forall i | 0 <= i < |nodes| && IdToIdx(nodes)[nodes[i]] != i ensures After(w, m)[i] == 0.0 {
      DeadSlot(A, nodes, edges, seeds, c, w, m, i);
    }
  }
}
