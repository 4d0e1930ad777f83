/** The activation plan: one pass from PPR to a ranked, filtered and synthesized view. */
module Plans {
  import opened Options
  import opened Sorting
  import opened Numbers
  import opened PprSpec
  import opened PprIndexes
  import opened PprRuns

  datatype Graph = Graph(nodes: seq<NodeId>, edges: seq<Edge>)

  datatype SynthCell<+N> = SynthCell(
    hook: string, id: nat, key: string, anchor: Option<NodeId>, text: string, score: N,
    attrs: seq<(string, string)>)

  datatype View<+N> = View(
    scores: seq<(NodeId, N)>,
    dropped: seq<(string, nat)>,
    synth: seq<SynthCell<N>>,
    iterations: nat,
    applied: seq<string>)

  /** The hooks are the caller's code: any functions of the graph and what they are handed. */
  datatype Signal<!N> = Signal(name: string, apply: (Graph, seq<(NodeId, N)>) -> seq<(NodeId, N)>)
  datatype Filter<!N> = Filter(name: string, keep: (Graph, NodeId, N) -> bool)
  datatype Synth<!N> = Synth(name: string, synth: (Graph, View<N>) -> seq<SynthCell<N>>)

  datatype Pass<!N> = Pass(
    config: Config<N>, signals: seq<Signal<N>>, filters: seq<Filter<N>>, synths: seq<Synth<N>>)

  datatype Universe = Reached | Candidates(ids: seq<NodeId>)

  const DEGREE_SPECIFICITY := "degree_specificity"

  function EmptyView<N>(): View<N> {
    View([], [], [], 0, [])
  }

  // ----- degree specificity

  /** Edge endpoints equal to `id`, whatever the category; a self-loop counts twice. */
  function Degree(edges: seq<Edge>, id: NodeId): nat {
    if edges == [] then 0
    else
      var e := edges[|edges| - 1];
      Degree(edges[..|edges| - 1], id) + (if e.from == id then 1 else 0) + (if e.to == id then 1 else 0)
  }

  function Scale<N>(A: Arith<N>, spec: Specificity, degree: nat, s: N): N {
    match spec
    case Unadjusted => s
    case Idf => A.div(s, A.add(A.one, A.ofNat(degree)))
    case InverseIdf => A.mul(s, A.ln1p(A.add(A.one, A.ofNat(degree))))
  }

  function Specialize<N>(A: Arith<N>, spec: Specificity, edges: seq<Edge>,
                         scores: seq<(NodeId, N)>): (r: seq<(NodeId, N)>)
    ensures |r| == |scores|
  {
    seq(|scores|, i requires 0 <= i < |scores| =>
      (scores[i].0, Scale(A, spec, Degree(edges, scores[i].0), scores[i].1)))
  }

  // ----- the universe

  function Zip<N>(nodes: seq<NodeId>, vector: seq<N>): (r: seq<(NodeId, N)>)
    ensures |r| == if |nodes| < |vector| then |nodes| else |vector|
  {
    seq(if |nodes| < |vector| then |nodes| else |vector|,
        i requires 0 <= i < |nodes| && i < |vector| => (nodes[i], vector[i]))
  }

  function KeepPositive<N>(A: Arith<N>, scores: seq<(NodeId, N)>): seq<(NodeId, N)> {
    if scores == [] then []
    else
      var last := scores[|scores| - 1];
      KeepPositive(A, scores[..|scores| - 1]) + (if A.lt(A.zero, last.1) then [last] else [])
  }

  function FirstOccurrences(ids: seq<NodeId>): seq<NodeId> {
    if ids == [] then []
    else
      var init, last := ids[..|ids| - 1], ids[|ids| - 1];
      FirstOccurrences(init) + (if last in init then [] else [last])
  }

  function PositiveOr0<N>(A: Arith<N>, s: Option<N>): N {
    if s.Some? && A.lt(A.zero, s.value) then s.value else A.zero
  }

  function CandidateScores<N>(A: Arith<N>, scored: seq<(NodeId, N)>, candidates: seq<NodeId>): (r: seq<(NodeId, N)>) {
    var ids := FirstOccurrences(candidates);
    seq(|ids|, i requires 0 <= i < |ids| => (ids[i], PositiveOr0(A, Lookup(scored, ids[i]))))
  }

  // ----- hooks

  function ApplySignals<N>(g: Graph, signals: seq<Signal<N>>, scores: seq<(NodeId, N)>): seq<(NodeId, N)> {
    if signals == [] then scores
    else signals[|signals| - 1].apply(g, ApplySignals(g, signals[..|signals| - 1], scores))
  }

  function Retain<N>(g: Graph, f: Filter<N>, scores: seq<(NodeId, N)>): (r: seq<(NodeId, N)>)
    ensures |r| <= |scores|
  {
    if scores == [] then []
    else
      var last := scores[|scores| - 1];
      Retain(g, f, scores[..|scores| - 1]) + (if f.keep(g, last.0, last.1) then [last] else [])
  }

  /** What is left after every filter, and each one's drop count under its name. */
  function ApplyFilters<N>(g: Graph, filters: seq<Filter<N>>,
                           scores: seq<(NodeId, N)>): (r: (seq<(NodeId, N)>, seq<(string, nat)>))
    ensures |r.1| == |filters|
  {
    if filters == [] then (scores, [])
    else
      var (before, dropped) := ApplyFilters(g, filters[..|filters| - 1], scores);
      var f := filters[|filters| - 1];
      var after := Retain(g, f, before);
      (after, dropped + [(f.name, |before| - |after|)])
  }

  function ApplySynths<N>(g: Graph, synths: seq<Synth<N>>, view: View<N>): View<N> {
    if synths == [] then view
    else
      var v := ApplySynths(g, synths[..|synths| - 1], view);
      var h := synths[|synths| - 1];
      v.(synth := v.synth + h.synth(g, v), applied := v.applied + [h.name])
  }

  function SignalNames<N>(hooks: seq<Signal<N>>): seq<string> {
    seq(|hooks|, i requires 0 <= i < |hooks| => hooks[i].name)
  }

  function FilterNames<N>(hooks: seq<Filter<N>>): seq<string> {
    seq(|hooks|, i requires 0 <= i < |hooks| => hooks[i].name)
  }

  // ----- the ranking

  /** `a` ranks strictly before `b`: higher score, or no score difference and the lower id. */
  predicate Before<N>(A: Arith<N>, a: (NodeId, N), b: (NodeId, N)) {
    A.lt(b.1, a.1) || (!A.lt(a.1, b.1) && a.0 < b.0)
  }

  function Ranking<N>(A: Arith<N>): ((NodeId, N), (NodeId, N)) -> bool {
    (a: (NodeId, N), b: (NodeId, N)) => Before(A, a, b)
  }

  function SortRanked<N>(A: Arith<N>, s: seq<(NodeId, N)>): (r: seq<(NodeId, N)>)
    ensures |r| == |s|
  {
    Sort(Ranking(A), s)
  }

  function Truncate<T>(s: seq<T>, k: nat): (r: seq<T>)
    ensures |r| == if |s| <= k then |s| else k
  {
    if |s| <= k then s else s[..k]
  }

  // ----- the pass

  /** Everything after the universe is chosen. */
  function Finish<N>(A: Arith<N>, pass: Pass<N>, g: Graph, ranked: seq<(NodeId, N)>, iterations: nat): View<N> {
    var (kept, dropped) := ApplyFilters(g, pass.filters, ApplySignals(g, pass.signals, ranked));
    var scores := Truncate(SortRanked(A, kept), pass.config.topK);
    var applied := (if pass.config.nodeSpecificity.Unadjusted? then [] else [DEGREE_SPECIFICITY])
      + SignalNames(pass.signals) + FilterNames(pass.filters);
    ApplySynths(g, pass.synths, View(scores, dropped, [], iterations, applied))
  }

  /** The scored nodes the universe is chosen from. */
  function Scored<N>(A: Arith<N>, c: Config<N>, nodes: seq<NodeId>, edges: seq<Edge>, vector: seq<N>): seq<(NodeId, N)>
  {
    if c.nodeSpecificity.Unadjusted? then Zip(nodes, vector)
    else Specialize(A, c.nodeSpecificity, edges, Zip(nodes, vector))
  }

  function Choose<N>(A: Arith<N>, universe: Universe, scored: seq<(NodeId, N)>): seq<(NodeId, N)> {
    match universe
    case Reached => KeepPositive(A, scored)
    case Candidates(ids) => CandidateScores(A, scored, ids)
  }

  /** The pass over one vector. */
  function PassOver<N>(A: Arith<N>, pass: Pass<N>, g: Graph, nodes: seq<NodeId>, universe: Universe,
                       run: (seq<N>, nat)): View<N>
  {
    Finish(A, pass, g, Choose(A, universe, Scored(A, pass.config, nodes, g.edges, run.0)), run.1)
  }

  /** The pass without any index: PPR straight from the graph. */
  function FreshPass<N>(A: Arith<N>, pass: Pass<N>, g: Graph, seeds: seq<NodeId>, universe: Universe): View<N> {
    if g.nodes == [] || seeds == [] then EmptyView()
    else PassOver(A, pass, g, g.nodes, universe, HeadVector(A, g.nodes, g.edges, seeds, pass.config))
  }

  /** The pass over a prebuilt index that matches. */
  function IndexedPass<N>(A: Arith<N>, pass: Pass<N>, g: Graph, ix: PprIndex<N>, seeds: seq<NodeId>,
                          universe: Universe): View<N>
    requires ix.Shaped()
  {
    if ix.nodes == [] || seeds == [] then EmptyView()
    else PassOver(A, pass, g, ix.nodes, universe, IndexVector(A, ix, seeds))
  }

  ghost function ExpectedView<N>(A: Arith<N>, pass: Pass<N>, g: Graph, seeds: seq<NodeId>, index: Option<PprIndex<N>>,
                                 universe: Universe): View<N>
    requires index.Some? ==> index.value.Shaped()
  {
    if index.Some? && Matches(index.value, pass.config) then IndexedPass(A, pass, g, index.value, seeds, universe)
    else FreshPass(A, pass, g, seeds, universe)
  }

  // ----- the methods

  /** Degrees are counted for the scored ids only, then every score is scaled in place. */
  method ScaleByDegree<N>(A: Arith<N>, spec: Specificity, edges: seq<Edge>, scores: seq<(NodeId, N)>)
    returns (r: seq<(NodeId, N)>)
    ensures r == Specialize(A, spec, edges, scores)
  {
    if spec.Unadjusted? || |scores| == 0 {
      assert Specialize(A, spec, edges, scores) == scores;
      return scores;
    }
    var degree: map<NodeId, nat> := map i | 0 <= i < |scores| :: scores[i].0 := 0;
    for m := 0 to |edges|
      invariant forall i :: 0 <= i < |scores| ==> scores[i].0 in degree
      invariant forall id: NodeId :: id in degree ==> degree[id] == Degree(edges[..m], id)
    {
      assert edges[..m + 1][..m] == edges[..m];
      var e := edges[m];
      if e.from in degree {
        degree := degree[e.from := degree[e.from] + 1];
      }
      if e.to in degree {
        degree := degree[e.to := degree[e.to] + 1];
      }
    }
    assert edges[..|edges|] == edges;
    r := scores;
    for i := 0 to |scores|
      invariant |r| == |scores|
      invariant forall k :: 0 <= k < i ==>
        r[k] == (scores[k].0, Scale(A, spec, Degree(edges, scores[k].0), scores[k].1))
      invariant forall k :: i <= k < |scores| ==> r[k] == scores[k]
    {
      r := r[i := (r[i].0, Scale(A, spec, degree[r[i].0], r[i].1))];
    }
  }

  method ScoreCandidates<N>(A: Arith<N>, scored: seq<(NodeId, N)>, candidates: seq<NodeId>)
    returns (r: seq<(NodeId, N)>)
    ensures r == CandidateScores(A, scored, candidates)
  {
    var at: map<NodeId, N> := map[];
    for m := 0 to |scored|
      invariant forall id: NodeId :: Lookup(scored[..m], id) == if id in at then Some(at[id]) else None
    {
      assert scored[..m + 1][..m] == scored[..m];
      at := at[scored[m].0 := scored[m].1];
    }
    assert scored[..|scored|] == scored;
    var seen: set<NodeId> := {};
    r := [];
    for m := 0 to |candidates|
      invariant forall id: NodeId :: id in seen <==> id in candidates[..m]
      invariant r == CandidateScores(A, scored, candidates[..m])
    {
      var id := candidates[m];
      assert candidates[..m + 1][..m] == candidates[..m];
      if id !in seen {
        seen := seen + {id};
        r := r + [(id, if id in at && A.lt(A.zero, at[id]) then at[id] else A.zero)];
      }
      assert candidates[..m + 1] == candidates[..m] + [id];
    }
    assert candidates[..|candidates|] == candidates;
  }

  /** One pass. An index built for another config is ignored. */
  method Execute<N(==)>(A: Arith<N>, pass: Pass<N>, g: Graph, seeds: seq<NodeId>, index: Option<PprIndex<N>>,
                         universe: Universe)
    returns (view: View<N>)
    requires index.Some? ==> index.value.Shaped() && Ascending(index.value.weights)
    ensures view == ExpectedView(A, pass, g, seeds, index, universe)
  {
    var c := pass.config;
    var usable := false;
    if index.Some? {
      usable := CheckMatches(index.value, c);
    }
    var nodes := if usable then index.value.nodes else g.nodes;
    if |nodes| == 0 || |seeds| == 0 {
      return EmptyView();
    }
    var vector, iterations;
    if usable {
      vector, iterations := Vector(A, index.value, seeds);
    } else {
      var ix := Build(A, g.nodes, g.edges, c);
      vector, iterations := Vector(A, ix, seeds);
      IndexRefinesHead(A, ix, g.nodes, g.edges, c, seeds);
    }
    view := RunPass(A, pass, g, nodes, universe, vector, iterations);
  }

  method RunPass<N>(A: Arith<N>, pass: Pass<N>, g: Graph, nodes: seq<NodeId>, universe: Universe, vector: seq<N>,
                    iterations: nat)
    returns (view: View<N>)
    ensures view == PassOver(A, pass, g, nodes, universe, (vector, iterations))
  {
    var c := pass.config;
    var applied: seq<string> := [];
    var scored := Zip(nodes, vector);
    if !c.nodeSpecificity.Unadjusted? {
      scored := ScaleByDegree(A, c.nodeSpecificity, g.edges, scored);
      applied := [DEGREE_SPECIFICITY];
    }
    var ranked: seq<(NodeId, N)>;
    match universe {
      case Reached =>
        ranked := KeepPositive(A, scored);
      case Candidates(ids) =>
        ranked := ScoreCandidates(A, scored, ids);
    }
    view := RunHooks(A, pass, g, ranked, iterations, applied);
  }

  method RunHooks<N>(A: Arith<N>, pass: Pass<N>, g: Graph, universe: seq<(NodeId, N)>, iterations: nat,
                     first: seq<string>)
    returns (view: View<N>)
    requires first == if pass.config.nodeSpecificity.Unadjusted? then [] else [DEGREE_SPECIFICITY]
    ensures view == Finish(A, pass, g, universe, iterations)
  {
    var signalled, signals := RunSignals(g, pass.signals, universe);
    var ranked, dropped, filters := RunFilters(g, pass.filters, signalled);
    var applied := first + signals + filters;
    var scores := Truncate(SortRanked(A, ranked), pass.config.topK);
    view := Synthesize(g, pass.synths, View(scores, dropped, [], iterations, applied));
  }

  method RunSignals<N>(g: Graph, signals: seq<Signal<N>>, scores: seq<(NodeId, N)>)
    returns (ranked: seq<(NodeId, N)>, names: seq<string>)
    ensures ranked == ApplySignals(g, signals, scores) && names == SignalNames(signals)
  {
    ranked, names := scores, [];
    for k := 0 to |signals|
      invariant ranked == ApplySignals(g, signals[..k], scores)
      invariant names == SignalNames(signals[..k])
    {
      assert signals[..k + 1][..k] == signals[..k];
      ranked := signals[k].apply(g, ranked);
      names := names + [signals[k].name];
    }
    assert signals[..|signals|] == signals;
  }

  method RunFilters<N>(g: Graph, filters: seq<Filter<N>>, scores: seq<(NodeId, N)>)
    returns (ranked: seq<(NodeId, N)>, dropped: seq<(string, nat)>, names: seq<string>)
    ensures (ranked, dropped) == ApplyFilters(g, filters, scores) && names == FilterNames(filters)
  {
    ranked, dropped, names := scores, [], [];
    for k := 0 to |filters|
      invariant (ranked, dropped) == ApplyFilters(g, filters[..k], scores)
      invariant names == FilterNames(filters[..k])
    {
      assert filters[..k + 1][..k] == filters[..k];
      var before := |ranked|;
      ranked := Retain(g, filters[k], ranked);
      dropped := dropped + [(filters[k].name, before - |ranked|)];
      names := names + [filters[k].name];
    }
    assert filters[..|filters|] == filters;
  }

  /** Each hook sees every earlier hook's cells. */
  method Synthesize<N>(g: Graph, synths: seq<Synth<N>>, before: View<N>) returns (view: View<N>)
    ensures view == ApplySynths(g, synths, before)
  {
    view := before;
    for k := 0 to |synths|
      invariant view == ApplySynths(g, synths[..k], before)
    {
      assert synths[..k + 1][..k] == synths[..k];
      var cells := synths[k].synth(g, view);
      view := view.(synth := view.synth + cells, applied := view.applied + [synths[k].name]);
    }
    assert synths[..|synths|] == synths;
  }
}
