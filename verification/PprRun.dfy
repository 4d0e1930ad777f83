/** Runs over a prebuilt index, the simple form they refine, and when an index may be used. */
module PprRuns {
  import opened Numbers
  import opened PprSpec
  import opened PprIndexes

  // ----- what a run over an index computes

  function IndexSystem<N>(A: Arith<N>, ix: PprIndex<N>, p: seq<N>): (sys: System<N>)
    requires ix.Shaped() && |p| == |ix.nodes|
    ensures sys.Ok()
  {
    var rows := seq(|ix.nodes|, i requires 0 <= i < |ix.nodes| => ix.Row(i));
    assert forall i, k :: 0 <= i < |rows| && 0 <= k < |rows[i]| ==> rows[i][k].0 < |p| by {
      forall i, k | 0 <= i < |rows| && 0 <= k < |rows[i]| ensures rows[i][k].0 < |p| {
        assert Slice(ix.start, ix.inc, i);
        assert rows[i][k] == ix.inc[ix.start[i] + k];
      }
    }
    System(rows, ix.outW, ix.dangling, p, Clamp(A, ix.damping))
  }

  function IndexVector<N>(A: Arith<N>, ix: PprIndex<N>, seeds: seq<NodeId>): (seq<N>, nat)
    requires ix.Shaped()
  {
    var hits := Hits(ix.idToIdx, seeds);
    if |ix.nodes| == 0 || |seeds| == 0 || hits == 0 then ([], 0)
    else
      var p := Personalize(A.zero, A.div(A.one, A.ofNat(hits)), ix.idToIdx, |ix.nodes|, seeds);
      Rounds(A, IndexSystem(A, ix, p), ix.epsilon, p, ix.maxIterations)
  }

  function IndexVectorWeighted<N>(A: Arith<N>, ix: PprIndex<N>, pers: seq<(NodeId, N)>): (seq<N>, nat)
    requires ix.Shaped()
  {
    var p := PersonalizeWeighted(A.zero, ix.idToIdx, |ix.nodes|, pers);
    if |ix.nodes| == 0 || forall k :: 0 <= k < |pers| ==> pers[k].0 !in ix.idToIdx then (p, 0)
    else Rounds(A, IndexSystem(A, ix, p), ix.epsilon, p, ix.maxIterations)
  }

  // ----- the methods

  /** One round, slot by slot, into the second buffer. */
  method FillRound<N>(A: Arith<N>, sys: System<N>, scores: array<N>, newScores: array<N>)
    requires sys.Ok() && scores.Length == newScores.Length == |sys.p| && scores != newScores
    modifies newScores
    ensures newScores[..] == Round(A, sys, scores[..])
  {
    ghost var v := scores[..];
    var danglingSum := DanglingSum(A, sys, scores[..]);
    for i := 0 to |sys.p|
      invariant scores[..] == v
      invariant forall k :: 0 <= k < i ==> newScores[k] == NewScore(A, sys, v, k)
    {
      var propagated := Propagated(A, sys, scores[..], i);
      newScores[i] := A.add(A.mul(A.sub(A.one, sys.d), sys.p[i]),
                            A.mul(sys.d, A.add(propagated, A.mul(danglingSum, sys.p[i]))));
    }
  }

  /** Power iteration over two swapped buffers. */
  method Iterate<N>(A: Arith<N>, sys: System<N>, epsilon: N, cap: nat) returns (r: seq<N>, iterations: nat)
    requires sys.Ok()
    ensures (r, iterations) == Rounds(A, sys, epsilon, sys.p, cap)
  {
    var n := |sys.p|;
    var scores := new N[n](i requires 0 <= i < n => sys.p[i]);
    var newScores := new N[n](_ => A.zero);
    iterations := 0;
    assert scores[..] == sys.p;
    ghost var answer := Rounds(A, sys, epsilon, sys.p, cap);
    while iterations < cap
      invariant fresh(scores) && fresh(newScores) && scores != newScores
      invariant scores.Length == newScores.Length == n && iterations <= cap
      invariant Continues(A, sys, epsilon, cap, answer, scores[..], iterations)
    {
      hide Round, Change, Rounds, Continues;
      ghost var v := scores[..];
      FillRound(A, sys, scores, newScores);
      assert scores[..] == v;
      var diff := Change(A, scores[..], newScores[..]);
      ContinuesNext(A, sys, epsilon, cap, answer, v, iterations);
      scores, newScores := newScores, scores;
      iterations := iterations + 1;
      if A.lt(diff, epsilon) {
        return scores[..], iterations;
      }
    }
    r := scores[..];
  }

  /** What is left to run from here gives the answer. */
  ghost predicate Continues<N>(A: Arith<N>, sys: System<N>, epsilon: N, cap: nat, answer: (seq<N>, nat), v: seq<N>,
                               done: nat)
    requires sys.Ok() && |v| == |sys.p| && done <= cap
  {
    var rest := Rounds(A, sys, epsilon, v, cap - done);
    answer == (rest.0, rest.1 + done)
  }

  lemma ContinuesNext<N>(A: Arith<N>, sys: System<N>, epsilon: N, cap: nat, answer: (seq<N>, nat), v: seq<N>, done: nat)
    requires sys.Ok() && |v| == |sys.p| && done < cap
    requires Continues(A, sys, epsilon, cap, answer, v, done)
    ensures var v' := Round(A, sys, v);
      if A.lt(Change(A, v, v'), epsilon) then answer == (v', done + 1)
      else Continues(A, sys, epsilon, cap, answer, v', done + 1)
  {
  }

  method Vector<N>(A: Arith<N>, ix: PprIndex<N>, seeds: seq<NodeId>) returns (r: seq<N>, iterations: nat)
    requires ix.Shaped()
    ensures (r, iterations) == IndexVector(A, ix, seeds)
  {
    var n := |ix.nodes|;
    if n == 0 || |seeds| == 0 {
      return [], 0;
    }
    var hits := Hits(ix.idToIdx, seeds);
    if hits == 0 {
      return [], 0;
    }
    var weight := A.div(A.one, A.ofNat(hits));
    var p := new N[n](_ => A.zero);
    for k := 0 to |seeds|
      invariant p[..] == Personalize(A.zero, weight, ix.idToIdx, n, seeds[..k])
    {
      assert seeds[..k + 1][..k] == seeds[..k];
      if seeds[k] in ix.idToIdx {
        p[ix.idToIdx[seeds[k]]] := weight;
      }
    }
    assert seeds[..|seeds|] == seeds;
    r, iterations := Iterate(A, IndexSystem(A, ix, p[..]), ix.epsilon, ix.maxIterations);
  }

  method VectorWeighted<N>(A: Arith<N>, ix: PprIndex<N>, pers: seq<(NodeId, N)>) returns (r: seq<N>, iterations: nat)
    requires ix.Shaped()
    ensures (r, iterations) == IndexVectorWeighted(A, ix, pers)
  {
    var n := |ix.nodes|;
    var p := new N[n](_ => A.zero);
    var any := false;
    for k := 0 to |pers|
      invariant p[..] == PersonalizeWeighted(A.zero, ix.idToIdx, n, pers[..k])
      invariant any <==> exists j :: 0 <= j < k && pers[j].0 in ix.idToIdx
    {
      assert pers[..k + 1][..k] == pers[..k];
      var (id, w) := pers[k];
      if id in ix.idToIdx {
        p[ix.idToIdx[id]] := w;
        any := true;
      }
    }
    assert pers[..|pers|] == pers;
    if n == 0 || !any {
      return p[..], 0;
    }
    r, iterations := Iterate(A, IndexSystem(A, ix, p[..]), ix.epsilon, ix.maxIterations);
  }

  /** The form without an index: lists of lists filled per call, a fresh vector each round. */
  method VectorHead<N>(A: Arith<N>, nodes: seq<NodeId>, edges: seq<Edge>, seeds: seq<NodeId>, c: Config<N>)
    returns (r: seq<N>, iterations: nat)
    ensures (r, iterations) == HeadVector(A, nodes, edges, seeds, c)
  {
    var n := |nodes|;
    if n == 0 || |seeds| == 0 {
      return [], 0;
    }
    var idx := IdToIdx(nodes);
    var incoming, outW := CollectLists(A, idx, n, edges, c);
    var hits := Hits(idx, seeds);
    if hits == 0 {
      return [], 0;
    }
    var p := Personalize(A.zero, A.div(A.one, A.ofNat(hits)), idx, n, seeds);
    var sys := System(incoming, outW, DanglingOf(A, outW), p, Clamp(A, c.damping));
    assert sys == HeadSystem(A, nodes, edges, c, p);
    r := p;
    iterations := 0;
    ghost var answer := Rounds(A, sys, c.epsilon, p, c.maxIterations);
    while iterations < c.maxIterations
      invariant |r| == n && iterations <= c.maxIterations
      invariant Continues(A, sys, c.epsilon, c.maxIterations, answer, r, iterations)
    {
      hide Round, Change, Rounds, Continues;
      var newScores := Round(A, sys, r);
      var diff := Change(A, r, newScores);
      ContinuesNext(A, sys, c.epsilon, c.maxIterations, answer, r, iterations);
      r := newScores;
      iterations := iterations + 1;
      if A.lt(diff, c.epsilon) {
        return;
      }
    }
  }

  method CollectLists<N>(A: Arith<N>, idx: map<NodeId, nat>, n: nat, edges: seq<Edge>, c: Config<N>)
    returns (incoming: seq<seq<(nat, N)>>, outW: seq<N>)
    requires forall id :: id in idx ==> idx[id] < n
    ensures incoming == IncomingLists(Events(A, c, idx, edges), n)
    ensures outW == OutWeights(A, Events(A, c, idx, edges), n)
  {
    incoming := seq(n, _ => []);
    outW := seq(n, _ => A.zero);
    ghost var evs := [];
    for m := 0 to |edges|
      invariant evs == Events(A, c, idx, edges[..m])
      invariant incoming == IncomingLists(evs, n) && outW == OutWeights(A, evs, n)
    {
      assert edges[..m + 1][..m] == edges[..m];
      var e := edges[m];
      var w := WeightOf(A, c, e.category);
      if !A.le(w, A.zero) && e.from in idx && e.to in idx {
        var fi, ti := idx[e.from], idx[e.to];
        match c.direction
        case Forward =>
          incoming, outW := AddIncidence(A, evs, incoming, outW, ti, fi, w);
          evs := evs + [Event(ti, fi, w)];
        case Backward =>
          incoming, outW := AddIncidence(A, evs, incoming, outW, fi, ti, w);
          evs := evs + [Event(fi, ti, w)];
        case Undirected =>
          incoming, outW := AddIncidence(A, evs, incoming, outW, ti, fi, w);
          incoming, outW := AddIncidence(A, evs + [Event(ti, fi, w)], incoming, outW, fi, ti, w);
          evs := evs + [Event(ti, fi, w)] + [Event(fi, ti, w)];
      }
    }
    assert edges[..|edges|] == edges;
  }

  method AddIncidence<N>(A: Arith<N>, ghost evs: seq<Event<N>>, incoming: seq<seq<(nat, N)>>, outW: seq<N>, t: nat,
                         s: nat, w: N)
    returns (incoming': seq<seq<(nat, N)>>, outW': seq<N>)
    requires t < |incoming| && s < |outW| == |incoming|
    requires incoming == IncomingLists(evs, |outW|) && outW == OutWeights(A, evs, |outW|)
    ensures incoming' == IncomingLists(evs + [Event(t, s, w)], |outW|)
    ensures outW' == OutWeights(A, evs + [Event(t, s, w)], |outW|)
  {
    assert (evs + [Event(t, s, w)])[..|evs|] == evs;
    incoming' := incoming[t := incoming[t] + [(s, w)]];
    outW' := outW[s := A.add(outW[s], w)];
    forall i | 0 <= i < |outW| ensures incoming'[i] == Incoming(evs + [Event(t, s, w)], i) {
    }
  }

  // ----- the index refines the simple form

  lemma BuiltSystem<N>(A: Arith<N>, ix: PprIndex<N>, nodes: seq<NodeId>, edges: seq<Edge>, c: Config<N>, p: seq<N>)
    requires BuiltFrom(A, ix, nodes, edges, c) && |p| == |nodes|
    ensures IndexSystem(A, ix, p) == HeadSystem(A, nodes, edges, c, p)
  {
    assert IndexSystem(A, ix, p).rows == HeadSystem(A, nodes, edges, c, p).rows;
  }

  /** Building once and running equals computing straight from the graph: the same operations
      in the same order, whatever the arithmetic, for every seed list the index is run on. */
  lemma IndexRefinesHead<N>(A: Arith<N>, ix: PprIndex<N>, nodes: seq<NodeId>, edges: seq<Edge>, c: Config<N>,
                            seeds: seq<NodeId>)
    requires BuiltFrom(A, ix, nodes, edges, c)
    ensures IndexVector(A, ix, seeds) == HeadVector(A, nodes, edges, seeds, c)
  {
    forall p: seq<N> | |p| == |nodes| ensures IndexSystem(A, ix, p) == HeadSystem(A, nodes, edges, c, p) {
      BuiltSystem(A, ix, nodes, edges, c, p);
    }
  }

  /** The seeds, each weighing one over the hit count: the weighted run is the plain one. */
  lemma WeightedIsVector<N>(A: Arith<N>, ix: PprIndex<N>, seeds: seq<NodeId>, pers: seq<(NodeId, N)>)
    requires ix.Shaped() && Hits(ix.idToIdx, seeds) > 0 && |pers| == |seeds| && |ix.nodes| > 0
    requires forall k :: 0 <= k < |seeds| ==> pers[k] == (seeds[k], A.div(A.one, A.ofNat(Hits(ix.idToIdx, seeds))))
    ensures IndexVectorWeighted(A, ix, pers) == IndexVector(A, ix, seeds)
  {
    var w := A.div(A.one, A.ofNat(Hits(ix.idToIdx, seeds)));
    SamePersonalization(A.zero, w, ix.idToIdx, |ix.nodes|, seeds, pers);
    HitsSomeSeed(ix.idToIdx, seeds);
  }

  lemma {:induction false} SamePersonalization<N>(zero: N, w: N, idx: map<NodeId, nat>, n: nat, seeds: seq<NodeId>,
                                                  pers: seq<(NodeId, N)>)
    requires |pers| == |seeds| && forall k :: 0 <= k < |seeds| ==> pers[k] == (seeds[k], w)
    requires forall id :: id in idx ==> idx[id] < n
    ensures PersonalizeWeighted(zero, idx, n, pers) == Personalize(zero, w, idx, n, seeds)
  {
    if seeds == [] {
    } else {
      SamePersonalization(zero, w, idx, n, seeds[..|seeds| - 1], pers[..|pers| - 1]);
    }
  }

  lemma {:induction false} HitsSomeSeed(idx: map<NodeId, nat>, seeds: seq<NodeId>)
    ensures Hits(idx, seeds) > 0 <==> exists k :: 0 <= k < |seeds| && seeds[k] in idx
  {
    if seeds == [] {
    } else {
      HitsSomeSeed(idx, seeds[..|seeds| - 1]);
    }
  }

  // ----- when an index answers for a config

  /** What PPR reads of a config; `topK` and `nodeSpecificity` are no part of it. */
  ghost predicate SamePpr<N>(a: Config<N>, b: Config<N>) {
    && a.damping == b.damping && a.direction == b.direction && a.maxIterations == b.maxIterations
    && a.epsilon == b.epsilon && a.edgeWeights == b.edgeWeights
  }

  ghost predicate Matches<N>(ix: PprIndex<N>, c: Config<N>) {
    && ix.damping == c.damping && ix.direction == c.direction && ix.maxIterations == c.maxIterations
    && ix.epsilon == c.epsilon && IsFingerprint(c.edgeWeights, ix.weights)
  }

  method CheckMatches<N(==)>(ix: PprIndex<N>, c: Config<N>) returns (ok: bool)
    requires Ascending(ix.weights)
    ensures ok <==> Matches(ix, c)
  {
    var w := WeightFingerprint(c.edgeWeights);
    ok := ix.damping == c.damping && ix.direction == c.direction
      && ix.maxIterations == c.maxIterations && ix.epsilon == c.epsilon && ix.weights == w;
    if IsFingerprint(c.edgeWeights, ix.weights) {
      FingerprintUnique(c.edgeWeights, ix.weights, w);
    }
  }

  /** One weight map has one fingerprint. */
  lemma {:induction false} FingerprintUnique<N>(m: map<CategoryId, N>, v: seq<(CategoryId, N)>, w: seq<(CategoryId, N)>)
    requires IsFingerprint(m, v) && IsFingerprint(m, w)
    ensures v == w
    decreases |v|
  {
    hide *;
    if v != [] {
      BothNonEmpty(m, w, v);
    }
    if w != [] {
      BothNonEmpty(m, v, w);
      FirstOfFingerprint(m, v, w);
      FirstOfFingerprint(m, w, v);
      TailFingerprint(m, v);
      TailFingerprint(m, w);
      assert v[0] == w[0];
      FingerprintUnique(m - {v[0].0}, v[1..], w[1..]);
      assert v == [v[0]] + v[1..] && w == [w[0]] + w[1..];
    }
  }

  lemma BothNonEmpty<N>(m: map<CategoryId, N>, v: seq<(CategoryId, N)>, w: seq<(CategoryId, N)>)
    requires IsFingerprint(m, v) && IsFingerprint(m, w) && w != []
    ensures v != []
  {
    assert w[0].0 in m;
    assert Lists(v, w[0].0);
  }

  lemma FirstOfFingerprint<N>(m: map<CategoryId, N>, v: seq<(CategoryId, N)>, w: seq<(CategoryId, N)>)
    requires IsFingerprint(m, v) && IsFingerprint(m, w) && v != [] && w != []
    ensures v[0].0 <= w[0].0
    ensures v[0].1 == m[v[0].0]
  {
    assert w[0].0 in m;
    assert Lists(v, w[0].0);
    var k :| 0 <= k < |v| && v[k].0 == w[0].0;
  }

  lemma TailFingerprint<N>(m: map<CategoryId, N>, w: seq<(CategoryId, N)>)
    requires IsFingerprint(m, w) && w != []
    ensures IsFingerprint(m - {w[0].0}, w[1..])
  {
    var m' := m - {w[0].0};
    forall c | c in m' ensures Lists(w[1..], c) {
      assert Lists(w, c);
      var k :| 0 <= k < |w| && w[k].0 == c;
      assert w[1..][k - 1].0 == c;
    }
  }

  /** Two weight maps with one fingerprint are one map. */
  lemma FingerprintInjective<N>(m: map<CategoryId, N>, m': map<CategoryId, N>, w: seq<(CategoryId, N)>)
    requires IsFingerprint(m, w) && IsFingerprint(m', w)
    ensures m == m'
  {
    forall c | c in m ensures c in m' && m'[c] == m[c] {
      assert Lists(w, c);
      var k :| 0 <= k < |w| && w[k].0 == c;
      assert w[k].0 in m';
    }
    forall c | c in m' ensures c in m {
      assert Lists(w, c);
      var k :| 0 <= k < |w| && w[k].0 == c;
      assert w[k].0 in m;
    }
  }

  /** A match means exactly that PPR would run the same under both configs, so an index built
      for one config answers for the other, for every seed list. */
  lemma MatchesIsSamePpr<N>(A: Arith<N>, ix: PprIndex<N>, nodes: seq<NodeId>, edges: seq<Edge>, built: Config<N>,
                            c: Config<N>)
    requires BuiltFrom(A, ix, nodes, edges, built)
    ensures Matches(ix, c) <==> SamePpr(built, c)
    ensures Matches(ix, c) ==> BuiltFrom(A, ix, nodes, edges, c)
    ensures Matches(ix, c) ==> forall seeds :: IndexVector(A, ix, seeds) == HeadVector(A, nodes, edges, seeds, c)
  {
    if Matches(ix, c) {
      FingerprintInjective(built.edgeWeights, c.edgeWeights, ix.weights);
      EventsReadSamePpr(A, built, c, IdToIdx(nodes), edges);
      forall seeds ensures IndexVector(A, ix, seeds) == HeadVector(A, nodes, edges, seeds, c) {
        IndexRefinesHead(A, ix, nodes, edges, c, seeds);
      }
    }
  }

  lemma {:induction false} EventsReadSamePpr<N>(A: Arith<N>, a: Config<N>, b: Config<N>, idx: map<NodeId, nat>,
                                                edges: seq<Edge>)
    requires SamePpr(a, b)
    ensures Events(A, a, idx, edges) == Events(A, b, idx, edges)
  {
    if edges == [] {
    } else {
      EventsReadSamePpr(A, a, b, idx, edges[..|edges| - 1]);
    }
  }
}
