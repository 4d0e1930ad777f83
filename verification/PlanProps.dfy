/** What every pass keeps, whatever the arithmetic: an index changes nothing, the counts add up,
    and the pass without hooks is the activation the crate had before plans. */
module PlanProps {
  import opened Options
  import opened Numbers
  import opened PprSpec
  import opened PprIndexes
  import opened PprRuns
  import opened Plans

  function NoHooks<N>(c: Config<N>): Pass<N> {
    Pass(c, [], [], [])
  }

  // ----- prebuilt indexes

  /** Over an index built from the same graph, for whatever config, the view is the fresh one. */
  lemma IndexedIsFresh<N>(A: Arith<N>, pass: Pass<N>, g: Graph, ix: PprIndex<N>, built: Config<N>, seeds: seq<NodeId>,
                          universe: Universe)
    requires BuiltFrom(A, ix, g.nodes, g.edges, built)
    ensures ExpectedView(A, pass, g, seeds, Some(ix), universe) == FreshPass(A, pass, g, seeds, universe)
  {
    if Matches(ix, pass.config) {
      MatchesIsSamePpr(A, ix, g.nodes, g.edges, built, pass.config);
      hide IndexVector, HeadVector, PassOver, BuiltFrom, Matches;
      BuiltFromGraph(A, ix, g, built);
    }
  }

  lemma BuiltFromGraph<N>(A: Arith<N>, ix: PprIndex<N>, g: Graph, built: Config<N>)
    requires BuiltFrom(A, ix, g.nodes, g.edges, built)
    ensures ix.Shaped() && ix.nodes == g.nodes
  {
  }

  /** Over a matching index, with no degree specificity and no hooks, the edges are not read:
      any edge list gives the answer of the edges the index was built from. */
  lemma IndexedReadsNoEdges<N>(A: Arith<N>, c: Config<N>, nodes: seq<NodeId>, edges: seq<Edge>, ix: PprIndex<N>,
                               built: Config<N>, seeds: seq<NodeId>, given: seq<Edge>)
    requires BuiltFrom(A, ix, nodes, edges, built) && Matches(ix, c) && c.nodeSpecificity.Unadjusted?
    ensures ExpectedView(A, NoHooks(c), Graph(nodes, given), seeds, Some(ix), Reached)
         == FreshPass(A, NoHooks(c), Graph(nodes, edges), seeds, Reached)
  {
    IndexedIsFresh(A, NoHooks(c), Graph(nodes, edges), ix, built, seeds, Reached);
    hide IndexVector, HeadVector, BuiltFrom, Matches;
    BuiltFromGraph(A, ix, Graph(nodes, edges), built);
  }

  // ----- counts

  function Drops(dropped: seq<(string, nat)>): nat {
    if dropped == [] then 0 else Drops(dropped[..|dropped| - 1]) + dropped[|dropped| - 1].1
  }

  lemma {:induction false} FiltersCount<N>(g: Graph, filters: seq<Filter<N>>, scores: seq<(NodeId, N)>)
    ensures var (kept, dropped) := ApplyFilters(g, filters, scores);
      |kept| + Drops(dropped) == |scores|
  {
    if filters == [] {
    } else {
      FiltersCount(g, filters[..|filters| - 1], scores);
      var (before, dropped) := ApplyFilters(g, filters[..|filters| - 1], scores);
      var last := ApplyFilters(g, filters, scores).1;
      assert last[..|last| - 1] == dropped;
    }
  }

  lemma {:induction false} SynthsKeepScores<N>(g: Graph, synths: seq<Synth<N>>, view: View<N>)
    ensures var v := ApplySynths(g, synths, view);
      && v.scores == view.scores && v.dropped == view.dropped && v.iterations == view.iterations
      && |v.applied| == |view.applied| + |synths| && view.applied <= v.applied && view.synth <= v.synth
  {
    if synths == [] {
    } else {
      SynthsKeepScores(g, synths[..|synths| - 1], view);
    }
  }

  /** A signal rescores a slice: it cannot change how many entries there are. */
  ghost predicate KeepsLength<N(!new)>(s: Signal<N>) {
    forall g, xs {:trigger s.apply(g, xs)} :: |s.apply(g, xs)| == |xs|
  }

  lemma {:induction false} SignalsKeepLength<N(!new)>(g: Graph, signals: seq<Signal<N>>, scores: seq<(NodeId, N)>)
    requires forall k :: 0 <= k < |signals| ==> KeepsLength(signals[k])
    ensures |ApplySignals(g, signals, scores)| == |scores|
  {
    if signals == [] {
    } else {
      SignalsKeepLength(g, signals[..|signals| - 1], scores);
      assert KeepsLength(signals[|signals| - 1]);
    }
  }

  /** The view holds the universe less what the filters dropped, up to `topK`. */
  lemma ViewCount<N(!new)>(A: Arith<N>, pass: Pass<N>, g: Graph, ranked: seq<(NodeId, N)>, iterations: nat)
    requires forall k :: 0 <= k < |pass.signals| ==> KeepsLength(pass.signals[k])
    ensures var view := Finish(A, pass, g, ranked, iterations);
      && Drops(view.dropped) <= |ranked|
      && |view.scores|
         == (var kept := |ranked| - Drops(view.dropped); if kept <= pass.config.topK then kept else pass.config.topK)
      && |view.dropped| == |pass.filters| && view.iterations == iterations
  {
    SignalsKeepLength(g, pass.signals, ranked);
    FiltersCount(g, pass.filters, ApplySignals(g, pass.signals, ranked));
    var (kept, dropped) := ApplyFilters(g, pass.filters, ApplySignals(g, pass.signals, ranked));
    var applied := (if pass.config.nodeSpecificity.Unadjusted? then [] else [DEGREE_SPECIFICITY])
      + SignalNames(pass.signals) + FilterNames(pass.filters);
    var scores := Truncate(SortRanked(A, kept), pass.config.topK);
    SynthsKeepScores(g, pass.synths, View(scores, dropped, [], iterations, applied));
  }

  // ----- the activation before plans

  /** Degrees counted by slot: an endpoint counts at its id's last slot only. */
  function SlotDegree(idx: map<NodeId, nat>, edges: seq<Edge>, i: nat): nat {
    if edges == [] then 0
    else
      var e := edges[|edges| - 1];
      SlotDegree(idx, edges[..|edges| - 1], i)
      + (if e.from in idx && idx[e.from] == i then 1 else 0)
      + (if e.to in idx && idx[e.to] == i then 1 else 0)
  }

  function LegacyScores<N>(A: Arith<N>, nodes: seq<NodeId>, edges: seq<Edge>, spec: Specificity,
                           v: seq<N>): (r: seq<(NodeId, N)>)
    requires |v| == |nodes|
  {
    seq(|nodes|, i requires 0 <= i < |nodes| =>
      (nodes[i], Scale(A, spec, SlotDegree(IdToIdx(nodes), edges, i), v[i])))
  }

  /** Vector, degrees by slot, the positive ones, sorted and cut. */
  function LegacyActivate<N>(A: Arith<N>, nodes: seq<NodeId>, edges: seq<Edge>, seeds: seq<NodeId>,
                             c: Config<N>): (seq<(NodeId, N)>, nat)
  {
    var (v, m) := HeadVector(A, nodes, edges, seeds, c);
    if |v| != |nodes| then ([], 0)
    else (Truncate(SortRanked(A, KeepPositive(A, LegacyScores(A, nodes, edges, c.nodeSpecificity, v))), c.topK), m)
  }

  ghost predicate Distinct<T>(s: seq<T>) {
    forall i, j :: 0 <= i < j < |s| ==> s[i] != s[j]
  }

  lemma {:induction false} SlotDegreeIsDegree(nodes: seq<NodeId>, edges: seq<Edge>, i: nat)
    requires i < |nodes| && IdToIdx(nodes)[nodes[i]] == i
    ensures SlotDegree(IdToIdx(nodes), edges, i) == Degree(edges, nodes[i])
  {
    if edges == [] {
    } else {
      SlotDegreeIsDegree(nodes, edges[..|edges| - 1], i);
      hide IdToIdx;
      var e := edges[|edges| - 1];
      SameSlotSameId(nodes, e.from, i);
      SameSlotSameId(nodes, e.to, i);
    }
  }

  lemma SameSlotSameId(nodes: seq<NodeId>, id: NodeId, i: nat)
    requires i < |nodes| && IdToIdx(nodes)[nodes[i]] == i
    ensures id == nodes[i] <==> id in IdToIdx(nodes) && IdToIdx(nodes)[id] == i
  {
  }

  lemma HeadLength<N>(A: Arith<N>, nodes: seq<NodeId>, edges: seq<Edge>, seeds: seq<NodeId>, c: Config<N>)
    ensures var v := HeadVector(A, nodes, edges, seeds, c).0; v == [] || |v| == |nodes|
  {
  }

  /** Without hooks, over distinct node ids, a plan's run is that activation, operation for
      operation. */
  lemma RunIsLegacy<N>(A: Arith<N>, c: Config<N>, g: Graph, seeds: seq<NodeId>)
    requires Distinct(g.nodes)
    ensures var view := FreshPass(A, NoHooks(c), g, seeds, Reached);
      (view.scores, view.iterations) == LegacyActivate(A, g.nodes, g.edges, seeds, c)
  {
    hide IdToIdx;
    HeadLength(A, g.nodes, g.edges, seeds, c);
    var (v, m) := HeadVector(A, g.nodes, g.edges, seeds, c);
    if g.nodes != [] && seeds != [] {
      if |v| == |g.nodes| {
        LegacyScoresMatch(A, c, g, v);
      } else {
        assert Scored(A, c, g.nodes, g.edges, v) == [];
        NoVectorNoRounds(A, g.nodes, g.edges, seeds, c);
      }
    }
  }

  lemma NoVectorNoRounds<N>(A: Arith<N>, nodes: seq<NodeId>, edges: seq<Edge>, seeds: seq<NodeId>, c: Config<N>)
    requires nodes != [] && HeadVector(A, nodes, edges, seeds, c).0 == []
    ensures HeadVector(A, nodes, edges, seeds, c).1 == 0
  {
  }

  lemma LegacyScoresMatch<N>(A: Arith<N>, c: Config<N>, g: Graph, v: seq<N>)
    requires Distinct(g.nodes) && |v| == |g.nodes|
    ensures LegacyScores(A, g.nodes, g.edges, c.nodeSpecificity, v) == Scored(A, c, g.nodes, g.edges, v)
  {
    var l, s := LegacyScores(A, g.nodes, g.edges, c.nodeSpecificity, v), Scored(A, c, g.nodes, g.edges, v);
    forall i | 0 <= i < |g.nodes| ensures l[i] == s[i] {
      LiveWhenDistinct(g.nodes, i);
      SlotDegreeIsDegree(g.nodes, g.edges, i);
    }
  }

  lemma LiveWhenDistinct(nodes: seq<NodeId>, i: nat)
    requires Distinct(nodes) && i < |nodes|
    ensures IdToIdx(nodes)[nodes[i]] == i
  {
    var j := IdToIdx(nodes)[nodes[i]];
    assert nodes[j] == nodes[i];
  }
}
