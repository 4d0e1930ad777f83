/** Which nodes a view ranks, with what scores. */
module PlanViews {
  import opened Numbers
  import opened PprSpec
  import opened PprTheorems
  import opened PprSupport
  import opened PprRuns
  import opened PprOrder
  import opened PprReorder
  import opened Plans
  import opened PlanProps
  import opened PlanRanking

  /** All that is asked of the logarithm: positive on what it is given. */
  ghost predicate LnPositive(A: Arith<real>) {
    forall x {:trigger A.ln1p(x)} :: x >= 1.0 ==> A.ln1p(x) > 0.0
  }

  // ----- specificity

  /** Scaling by degree never changes which scores are positive. */
  lemma ScalePositive(A: Arith<real>, spec: Specificity, degree: nat, s: real)
    requires IsReal(A) && LnPositive(A)
    ensures Scale(A, spec, degree, s) > 0.0 <==> s > 0.0
    ensures s == 0.0 ==> Scale(A, spec, degree, s) == 0.0
  {
    var d := A.add(A.one, A.ofNat(degree));
    assert d == 1.0 + degree as real;
    match spec
    case Unadjusted =>
    case Idf =>
      assert Scale(A, spec, degree, s) == s / d;
      SignOfQuotient(s, d);
    case InverseIdf =>
      assert A.ln1p(d) > 0.0;
      assert Scale(A, spec, degree, s) == s * A.ln1p(d);
      SignOfProduct(s, A.ln1p(d));
  }

  /** Idf divides by one more than the degree, and its inverse multiplies by the logarithm of one
      more than that. */
  lemma ScaleMeans(A: Arith<real>, k: nat, s: real)
    requires IsReal(A)
    ensures Scale(A, Unadjusted, k, s) == s
    ensures Scale(A, Idf, k, s) * (1.0 + k as real) == s
    ensures Scale(A, InverseIdf, k, s) == s * A.ln1p(1.0 + k as real)
  {
    var x := 1.0 + k as real;
    assert A.add(A.one, A.ofNat(k)) == x;
    assert Scale(A, Idf, k, s) == s / x && Scale(A, InverseIdf, k, s) == s * A.ln1p(x);
    hide *;
    TimesQuotient(s, x);
  }

  lemma TimesQuotient(s: real, x: real)
    requires x > 0.0
    ensures s / x * x == s
  {
  }

  /** The more edges a node has the lower idf scores it, and the higher its inverse, as long as the
      logarithm grows. */
  lemma ScaleByDegrees(A: Arith<real>, k: nat, m: nat, s: real)
    requires IsReal(A) && (forall x, y {:trigger A.ln1p(x), A.ln1p(y)} :: 1.0 <= x < y ==> A.ln1p(x) < A.ln1p(y))
    requires k < m && s > 0.0
    ensures Scale(A, Idf, k, s) > Scale(A, Idf, m, s)
    ensures Scale(A, InverseIdf, k, s) < Scale(A, InverseIdf, m, s)
  {
    var x, y := 1.0 + k as real, 1.0 + m as real;
    assert A.add(A.one, A.ofNat(k)) == x && A.add(A.one, A.ofNat(m)) == y;
    assert Scale(A, Idf, k, s) == s / x && Scale(A, Idf, m, s) == s / y;
    assert Scale(A, InverseIdf, k, s) == s * A.ln1p(x) && Scale(A, InverseIdf, m, s) == s * A.ln1p(y);
    assert A.ln1p(x) < A.ln1p(y);
    hide *;
    QuotientFalls(s, x, y);
    ProductGrows(s, A.ln1p(x), A.ln1p(y));
  }

  lemma QuotientFalls(s: real, x: real, y: real)
    requires s > 0.0 && 0.0 < x < y
    ensures s / x > s / y
  {
    var q := s / y;
    assert q * y == s;
    assert q > 0.0;
    assert q * x < s;
    assert s / x * x == s;
  }

  lemma ProductGrows(s: real, x: real, y: real)
    requires s > 0.0 && x < y
    ensures s * x < s * y
  {
  }

  lemma SignOfQuotient(s: real, d: real)
    requires d > 0.0
    ensures (s / d > 0.0 <==> s > 0.0) && (s == 0.0 ==> s / d == 0.0)
  {
    assert s / d * d == s;
  }

  lemma SignOfProduct(s: real, d: real)
    requires d > 0.0
    ensures (s * d > 0.0 <==> s > 0.0) && (s == 0.0 ==> s * d == 0.0)
  {
  }

  function FinalScore(A: Arith<real>, c: Config<real>, edges: seq<Edge>, id: NodeId, s: real): real {
    Scale(A, c.nodeSpecificity, Degree(edges, id), s)
  }

  lemma ScoredAt(A: Arith<real>, c: Config<real>, nodes: seq<NodeId>, edges: seq<Edge>, v: seq<real>)
    requires |v| == |nodes|
    ensures var scored := Scored(A, c, nodes, edges, v);
      && |scored| == |nodes|
      && forall i :: 0 <= i < |nodes| ==> scored[i] == (nodes[i], FinalScore(A, c, edges, nodes[i], v[i]))
  {
  }

  // ----- the reached universe

  lemma {:induction false} KeepPositiveMembers(A: Arith<real>, s: Ranked)
    requires IsReal(A)
    ensures forall x :: x in KeepPositive(A, s) <==> x in s && x.1 > 0.0
    ensures |KeepPositive(A, s)| <= |s|
  {
    if s == [] {
    } else {
      var init, last := s[..|s| - 1], s[|s| - 1];
      assert s == init + [last];
      KeepPositiveMembers(A, init);
      assert A.lt(A.zero, last.1) <==> last.1 > 0.0;
    }
  }

  /** When only one entry of each id is positive, what is kept has distinct ids. */
  lemma {:induction false} KeepPositiveDistinct(A: Arith<real>, s: Ranked)
    requires IsReal(A)
    requires OnlyLastPositive(s)
    ensures DistinctIds(KeepPositive(A, s))
  {
    if s == [] {
    } else {
      var init, last := s[..|s| - 1], s[|s| - 1];
      KeepPositiveDistinct(A, init);
      KeepPositiveMembers(A, init);
      var kept := KeepPositive(A, init);
      forall k | 0 <= k < |kept| ensures kept[k].0 != last.0 {
        assert kept[k] in init;
        var i :| 0 <= i < |init| && init[i] == kept[k];
        assert s[i] == kept[k] && s[|s| - 1] == last;
      }
    }
  }

  /** Of the entries of one id only the last can be positive. */
  ghost predicate OnlyLastPositive(s: Ranked) {
    forall i, j :: 0 <= i < j < |s| && s[i].0 == s[j].0 ==> s[i].1 <= 0.0
  }

  lemma ScoredOnlyLast(A: Arith<real>, c: Config<real>, nodes: seq<NodeId>, edges: seq<Edge>, v: seq<real>)
    requires IsReal(A) && LnPositive(A)
    requires v == [] || (|v| == |nodes| && DeadZero(nodes, v))
    ensures OnlyLastPositive(Scored(A, c, nodes, edges, v))
  {
    var scored := Scored(A, c, nodes, edges, v);
    if v == [] {
      assert scored == [];
    } else {
      ScoredAt(A, c, nodes, edges, v);
      hide Scored, FinalScore;
      forall i, j | 0 <= i < j < |nodes| && scored[i].0 == scored[j].0 ensures scored[i].1 <= 0.0 {
        assert IdToIdx(nodes)[nodes[i]] != i;
        DeadScore(A, c, edges, nodes[i], v[i]);
      }
    }
  }

  /** The reached universe: each node id once, at its scaled score, where that is positive. */
  lemma UniverseMembers(A: Arith<real>, c: Config<real>, nodes: seq<NodeId>, edges: seq<Edge>, v: seq<real>)
    requires IsReal(A) && LnPositive(A) && |v| == |nodes| && DeadZero(nodes, v)
    ensures var u := KeepPositive(A, Scored(A, c, nodes, edges, v));
      && DistinctIds(u) && |u| <= |nodes|
      && forall x :: x in u <==>
          x.0 in nodes && x.1 == FinalScore(A, c, edges, x.0, v[IdToIdx(nodes)[x.0]]) && x.1 > 0.0
  {
    var scored := Scored(A, c, nodes, edges, v);
    ScoredAt(A, c, nodes, edges, v);
    hide Scored, FinalScore;
    forall i | 0 <= i < |nodes| && IdToIdx(nodes)[nodes[i]] != i ensures scored[i].1 == 0.0 {
      DeadScore(A, c, edges, nodes[i], v[i]);
    }
    ScoredOnlyLast(A, c, nodes, edges, v);
    KeepPositiveDistinct(A, scored);
    KeepPositiveMembers(A, scored);
    forall x
      ensures x in scored && x.1 > 0.0
         <==> x.0 in nodes && x.1 == FinalScore(A, c, edges, x.0, v[IdToIdx(nodes)[x.0]]) && x.1 > 0.0
    {
      if x in scored && x.1 > 0.0 {
        var i :| 0 <= i < |scored| && scored[i] == x;
        assert IdToIdx(nodes)[nodes[i]] == i;
      }
      if x.0 in nodes && x.1 == FinalScore(A, c, edges, x.0, v[IdToIdx(nodes)[x.0]]) {
        assert scored[IdToIdx(nodes)[x.0]] == x;
      }
    }
  }

  lemma DeadScore(A: Arith<real>, c: Config<real>, edges: seq<Edge>, id: NodeId, s: real)
    requires IsReal(A) && LnPositive(A)
    ensures FinalScore(A, c, edges, id, s) > 0.0 <==> s > 0.0
    ensures s == 0.0 ==> FinalScore(A, c, edges, id, s) == 0.0
  {
    ScalePositive(A, c.nodeSpecificity, Degree(edges, id), s);
  }

  /** What every run over the reals hands the plan: no vector, or one with empty dead slots. */
  lemma RunVector(A: Arith<real>, c: Config<real>, nodes: seq<NodeId>, edges: seq<Edge>, seeds: seq<NodeId>)
    requires IsReal(A)
    ensures var (v, m) := HeadVector(A, nodes, edges, seeds, c);
      if Hits(IdToIdx(nodes), seeds) > 0 then |v| == |nodes| > 0 && DeadZero(nodes, v) else v == [] && m == 0
  {
    if Hits(IdToIdx(nodes), seeds) > 0 {
      if nodes == [] {
        NoHits(seeds);
      }
      SupportIsBoundedReach(A, nodes, edges, seeds, c, nodes[0]);
    }
  }

  // ----- candidates

  lemma {:induction false} FirstOccurrencesOnce(ids: seq<NodeId>)
    ensures Distinct(FirstOccurrences(ids))
    ensures forall id :: id in FirstOccurrences(ids) <==> id in ids
  {
    if ids == [] {
    } else {
      assert ids == ids[..|ids| - 1] + [ids[|ids| - 1]];
      FirstOccurrencesOnce(ids[..|ids| - 1]);
    }
  }

  lemma CandidatesDistinct(A: Arith<real>, scored: Ranked, ids: seq<NodeId>)
    ensures DistinctIds(CandidateScores(A, scored, ids))
  {
    FirstOccurrencesOnce(ids);
  }

  /** No view lists an id twice, however often `node_ids` or the candidates do. */
  lemma ViewIdsDistinct(A: Arith<real>, pass: Pass<real>, g: Graph, seeds: seq<NodeId>, universe: Universe)
    requires IsReal(A) && LnPositive(A)
    requires forall k :: 0 <= k < |pass.signals| ==> Rescores(pass.signals[k])
    ensures DistinctIds(FreshPass(A, pass, g, seeds, universe).scores)
    ensures InRankOrder(A, FreshPass(A, pass, g, seeds, universe).scores)
  {
    if g.nodes != [] && seeds != [] {
      var (v, m) := HeadVector(A, g.nodes, g.edges, seeds, pass.config);
      UniverseDistinct(A, pass.config, g, seeds, universe);
      hide HeadVector, Finish, IsReal, LnPositive, Choose, Scored;
      FinishKeepsDistinct(A, pass, g, Choose(A, universe, Scored(A, pass.config, g.nodes, g.edges, v)), m);
    }
  }

  lemma UniverseDistinct(A: Arith<real>, c: Config<real>, g: Graph, seeds: seq<NodeId>, universe: Universe)
    requires IsReal(A) && LnPositive(A)
    ensures var v := HeadVector(A, g.nodes, g.edges, seeds, c).0;
      DistinctIds(Choose(A, universe, Scored(A, c, g.nodes, g.edges, v)))
  {
    var v := HeadVector(A, g.nodes, g.edges, seeds, c).0;
    RunVector(A, c, g.nodes, g.edges, seeds);
    hide HeadVector, IsReal, LnPositive, KeepPositive, CandidateScores;
    match universe
    case Candidates(ids) =>
      CandidatesDistinct(A, Scored(A, c, g.nodes, g.edges, v), ids);
    case Reached =>
      if v == [] {
        assert Scored(A, c, g.nodes, g.edges, v) == [];
        KeepPositiveNothing(A);
      } else {
        UniverseMembers(A, c, g.nodes, g.edges, v);
      }
  }

  lemma KeepPositiveNothing(A: Arith<real>)
    ensures KeepPositive(A, []) == []
  {
  }

  // ----- the run without hooks

  /** With no hook and room for every node, the view is the universe, sorted. */
  lemma UnboundedView(A: Arith<real>, c: Config<real>, g: Graph, u: Ranked, m: nat)
    requires IsReal(A) && |u| <= c.topK
    ensures var view := Finish(A, NoHooks(c), g, u, m);
      && view.scores == SortRanked(A, u) && view.iterations == m
      && forall x :: x in view.scores <==> x in u
  {
    FinishNoHooks(A, c, g, u, m);
    hide IsReal, Finish, SortRanked;
    SortRanks(A, u);
    forall x: (NodeId, real) ensures x in SortRanked(A, u) <==> x in u {
      assert x in multiset(SortRanked(A, u)) <==> x in multiset(u);
    }
  }

  lemma FinishNoHooks(A: Arith<real>, c: Config<real>, g: Graph, u: Ranked, m: nat)
    ensures var view := Finish(A, NoHooks(c), g, u, m);
      view == View(Truncate(SortRanked(A, u), c.topK), [], [], m,
                   if c.nodeSpecificity.Unadjusted? then [] else [DEGREE_SPECIFICITY])
  {
    hide SortRanked;
  }

  /** The nodes a run ranks are exactly those within as many hops of a seed as rounds were run,
      whatever the degree specificity. */
  lemma RunRanksReached(A: Arith<real>, c: Config<real>, g: Graph, seeds: seq<NodeId>, id: NodeId)
    requires IsReal(A) && LnPositive(A) && |g.nodes| <= c.topK
    ensures var view := FreshPass(A, NoHooks(c), g, seeds, Reached);
      (exists s :: (id, s) in view.scores)
      <==> id in g.nodes && Within(A, c, g.nodes, g.edges, seeds, view.iterations, id)
  {
    if Hits(IdToIdx(g.nodes), seeds) > 0 {
      SeededRanksReached(A, c, g, seeds, id);
    } else {
      NoSeedNoView(A, c, g, seeds);
      NoSeedWithin(A, c, g.nodes, g.edges, seeds, 0, id);
    }
  }

  lemma SeededRanksReached(A: Arith<real>, c: Config<real>, g: Graph, seeds: seq<NodeId>, id: NodeId)
    requires IsReal(A) && LnPositive(A) && |g.nodes| <= c.topK && Hits(IdToIdx(g.nodes), seeds) > 0
    ensures var view := FreshPass(A, NoHooks(c), g, seeds, Reached);
      (exists s :: (id, s) in view.scores)
      <==> id in g.nodes && Within(A, c, g.nodes, g.edges, seeds, view.iterations, id)
  {
    hide *;
    var nodes, edges := g.nodes, g.edges;
    var (v, m) := HeadVector(A, nodes, edges, seeds, c);
    RunVector(A, c, nodes, edges, seeds);
    var u := KeepPositive(A, Scored(A, c, nodes, edges, v));
    if id in nodes {
      SupportIsBoundedReach(A, nodes, edges, seeds, c, id);
      SlotInRange(nodes, id);
      DeadScore(A, c, edges, id, v[IdToIdx(nodes)[id]]);
    }
    UniverseMembers(A, c, nodes, edges, v);
    UnboundedView(A, c, g, u, m);
    FreshUnfolds(A, c, g, seeds);
    if id in nodes && v[IdToIdx(nodes)[id]] > 0.0 {
      assert (id, FinalScore(A, c, edges, id, v[IdToIdx(nodes)[id]])) in u;
    }
  }

  lemma NoSeedNoView(A: Arith<real>, c: Config<real>, g: Graph, seeds: seq<NodeId>)
    requires IsReal(A) && Hits(IdToIdx(g.nodes), seeds) == 0
    ensures FreshPass(A, NoHooks(c), g, seeds, Reached).scores == []
  {
    RunVector(A, c, g.nodes, g.edges, seeds);
    assert KeepPositive(A, Scored(A, c, g.nodes, g.edges, [])) == [];
    UnboundedView(A, c, g, [], 0);
  }

  // ----- the activation before plans, with repeated node ids

  /** Entries that are not positive are dropped, whatever they are. */
  lemma {:induction false} KeepPositiveSame(A: Arith<real>, s: Ranked, t: Ranked)
    requires IsReal(A) && |s| == |t|
    requires forall i :: 0 <= i < |s| ==> s[i] == t[i] || (s[i].1 == 0.0 && t[i].1 == 0.0)
    ensures KeepPositive(A, s) == KeepPositive(A, t)
  {
    if s != [] {
      KeepPositiveSame(A, s[..|s| - 1], t[..|t| - 1]);
    }
  }

  /** Over the reals a plan's run is the activation before plans for every node list: the slots
      whose degrees the two count differently hold nothing. */
  lemma RunIsLegacyOverReals(A: Arith<real>, c: Config<real>, g: Graph, seeds: seq<NodeId>)
    requires IsReal(A) && LnPositive(A)
    ensures var view := FreshPass(A, NoHooks(c), g, seeds, Reached);
      (view.scores, view.iterations) == LegacyActivate(A, g.nodes, g.edges, seeds, c)
  {
    var nodes, edges := g.nodes, g.edges;
    var (v, m) := HeadVector(A, nodes, edges, seeds, c);
    RunVector(A, c, nodes, edges, seeds);
    if Hits(IdToIdx(nodes), seeds) > 0 {
      FreshUnfolds(A, c, g, seeds);
      var s, t := Scored(A, c, nodes, edges, v), LegacyScores(A, nodes, edges, c.nodeSpecificity, v);
      ScoredAt(A, c, nodes, edges, v);
      forall i | 0 <= i < |nodes| ensures s[i] == t[i] || (s[i].1 == 0.0 && t[i].1 == 0.0) {
        LegacyScoreAt(A, c, nodes, edges, v, i);
      }
      hide HeadVector, Finish, Scored, LegacyScores, KeepPositive, IsReal, LnPositive;
      KeepPositiveSame(A, s, t);
      FinishNoHooks(A, c, g, KeepPositive(A, s), m);
    } else {
      NoSeedNoView(A, c, g, seeds);
    }
  }

  lemma LegacyScoreAt(A: Arith<real>, c: Config<real>, nodes: seq<NodeId>, edges: seq<Edge>, v: seq<real>, i: nat)
    requires IsReal(A) && LnPositive(A) && |v| == |nodes| && DeadZero(nodes, v) && i < |nodes|
    ensures var s := FinalScore(A, c, edges, nodes[i], v[i]);
      var t := LegacyScores(A, nodes, edges, c.nodeSpecificity, v)[i].1;
      s == t || (s == 0.0 && t == 0.0)
  {
    hide IdToIdx;
    if IdToIdx(nodes)[nodes[i]] == i {
      SlotDegreeIsDegree(nodes, edges, i);
    } else {
      ScalePositive(A, c.nodeSpecificity, Degree(edges, nodes[i]), v[i]);
      ScalePositive(A, c.nodeSpecificity, SlotDegree(IdToIdx(nodes), edges, i), v[i]);
    }
  }

  lemma FreshUnfolds(A: Arith<real>, c: Config<real>, g: Graph, seeds: seq<NodeId>)
    requires Hits(IdToIdx(g.nodes), seeds) > 0
    ensures var (v, m) := HeadVector(A, g.nodes, g.edges, seeds, c);
      FreshPass(A, NoHooks(c), g, seeds, Reached)
      == Finish(A, NoHooks(c), g, KeepPositive(A, Scored(A, c, g.nodes, g.edges, v)), m)
  {
    hide HeadVector, Finish;
    if g.nodes == [] {
      NoHits(seeds);
    }
  }

  lemma NoSeedWithin(A: Arith<real>, c: Config<real>, nodes: seq<NodeId>, edges: seq<Edge>, seeds: seq<NodeId>, k: nat,
                     id: NodeId)
    requires Hits(IdToIdx(nodes), seeds) == 0
    ensures !Within(A, c, nodes, edges, seeds, k, id)
  {
    SeedsMiss(IdToIdx(nodes), seeds);
    hide IdToIdx;
  }

  lemma {:induction false} SeedsMiss(idx: map<NodeId, nat>, seeds: seq<NodeId>)
    requires Hits(idx, seeds) == 0
    ensures forall id :: id in seeds ==> id !in idx
  {
    if seeds == [] {
    } else {
      assert seeds == seeds[..|seeds| - 1] + [seeds[|seeds| - 1]];
      SeedsMiss(idx, seeds[..|seeds| - 1]);
    }
  }

  // ----- rank is a lookup in the activation

  /** `score_of`: the first pair listed for `id`, else zero. */
  function ScoreOf(s: Ranked, id: NodeId): real {
    if s == [] then 0.0 else if s[0].0 == id then s[0].1 else ScoreOf(s[1..], id)
  }

  lemma {:induction false} ScoreOfDistinct(s: Ranked, id: NodeId)
    requires DistinctIds(s)
    ensures forall x :: x in s && x.0 == id ==> ScoreOf(s, id) == x.1
    ensures (forall x :: x in s ==> x.0 != id) ==> ScoreOf(s, id) == 0.0
  {
    if s == [] {
    } else {
      assert s == [s[0]] + s[1..];
      if s[0].0 == id {
        forall x | x in s && x.0 == id ensures x == s[0] {
          var i :| 0 <= i < |s| && s[i] == x;
        }
      } else {
        ScoreOfDistinct(s[1..], id);
      }
    }
  }

  lemma {:induction false} LookupLast(s: Ranked, id: NodeId)
    ensures match Lookup(s, id)
      case None => forall i :: 0 <= i < |s| ==> s[i].0 != id
      case Some(x) => exists i :: 0 <= i < |s| && s[i] == (id, x) && forall j :: i < j < |s| ==> s[j].0 != id
  {
    if s == [] {
    } else if s[|s| - 1].0 == id {
      assert s[|s| - 1] == (id, s[|s| - 1].1);
    } else {
      LookupLast(s[..|s| - 1], id);
      if Lookup(s, id).Some? {
        var i :| 0 <= i < |s| - 1 && s[i] == (id, Lookup(s, id).value) && forall j :: i < j < |s| - 1 ==> s[j].0 != id;
        assert s[i] == (id, Lookup(s, id).value);
      }
    }
  }

  /** A candidate's score is what the unbounded activation says of it. */
  lemma CandidateIsLookup(A: Arith<real>, c: Config<real>, g: Graph, seeds: seq<NodeId>, id: NodeId)
    requires IsReal(A) && LnPositive(A) && |g.nodes| <= c.topK && g.nodes != [] && seeds != []
    ensures PositiveOr0(A, Lookup(Scored(A, c, g.nodes, g.edges, HeadVector(A, g.nodes, g.edges, seeds, c).0), id))
         == ScoreOf(FreshPass(A, NoHooks(c), g, seeds, Reached).scores, id)
  {
    var nodes, edges := g.nodes, g.edges;
    var (v, m) := HeadVector(A, nodes, edges, seeds, c);
    var scored := Scored(A, c, nodes, edges, v);
    var u := KeepPositive(A, scored);
    RunVector(A, c, nodes, edges, seeds);
    ScoredOnlyLast(A, c, nodes, edges, v);
    KeepPositiveMembers(A, scored);
    if v == [] {
      assert scored == [];
    } else {
      UniverseMembers(A, c, nodes, edges, v);
    }
    UnboundedView(A, c, g, u, m);
    ViewIdsDistinct(A, NoHooks(c), g, seeds, Reached);
    assert FreshPass(A, NoHooks(c), g, seeds, Reached).scores == SortRanked(A, u);
    hide HeadVector, KeepPositive, Scored, FreshPass, Finish, SortRanked, LnPositive;
    LookupInUniverse(A, scored, u, SortRanked(A, u), id);
  }

  lemma LookupInUniverse(A: Arith<real>, scored: Ranked, u: Ranked, s: Ranked, id: NodeId)
    requires IsReal(A) && DistinctIds(s) && OnlyLastPositive(scored)
    requires forall x :: x in u <==> x in scored && x.1 > 0.0
    requires forall x :: x in s <==> x in u
    ensures PositiveOr0(A, Lookup(scored, id)) == ScoreOf(s, id)
  {
    ScoreOfDistinct(s, id);
    LookupLast(scored, id);
    hide ScoreOf, Lookup;
    match Lookup(scored, id)
    case None =>
      forall x | x in s ensures x.0 != id {
        var i :| 0 <= i < |scored| && scored[i] == x;
      }
    case Some(y) =>
      var last :|
        0 <= last < |scored| && scored[last] == (id, y) && forall j :: last < j < |scored| ==> scored[j].0 != id;
      assert A.lt(A.zero, y) <==> 0.0 < y;
      if y > 0.0 {
        assert (id, y) in s;
      } else {
        forall x | x in s ensures x.0 != id {
          var i :| 0 <= i < |scored| && scored[i] == x;
        }
      }
  }

  /** Ranking candidates is looking each first occurrence up in the unbounded activation, then
      running the hooks, the sort and the cut. */
  lemma RankIsLookup(A: Arith<real>, pass: Pass<real>, g: Graph, seeds: seq<NodeId>, candidates: seq<NodeId>, room: nat)
    requires IsReal(A) && LnPositive(A) && |g.nodes| <= room && g.nodes != [] && seeds != []
    ensures var activation := FreshPass(A, NoHooks(pass.config.(topK := room)), g, seeds, Reached);
      var ids := FirstOccurrences(candidates);
      FreshPass(A, pass, g, seeds, Candidates(candidates))
      == Finish(A, pass, g,
                seq(|ids|, i requires 0 <= i < |ids| => (ids[i], ScoreOf(activation.scores, ids[i]))),
                activation.iterations)
  {
    var c := pass.config.(topK := room);
    var (v, m) := HeadVector(A, g.nodes, g.edges, seeds, pass.config);
    assert HeadVector(A, g.nodes, g.edges, seeds, c) == (v, m) by {
      HeadIgnoresTopK(A, g.nodes, g.edges, seeds, pass.config, room);
    }
    var activation := FreshPass(A, NoHooks(c), g, seeds, Reached);
    var scored := Scored(A, pass.config, g.nodes, g.edges, v);
    assert scored == Scored(A, c, g.nodes, g.edges, v);
    assert activation.iterations == m;
    var ids := FirstOccurrences(candidates);
    var looked := seq(|ids|, i requires 0 <= i < |ids| => (ids[i], ScoreOf(activation.scores, ids[i])));
    hide HeadVector, Scored, Finish, IsReal, LnPositive, ScoreOf, Lookup;
    forall i | 0 <= i < |ids| ensures CandidateScores(A, scored, candidates)[i] == looked[i] {
      CandidateIsLookup(A, c, g, seeds, ids[i]);
    }
    assert CandidateScores(A, scored, candidates) == looked;
  }

  lemma HeadIgnoresTopK(A: Arith<real>, nodes: seq<NodeId>, edges: seq<Edge>, seeds: seq<NodeId>, c: Config<real>,
                        room: nat)
    ensures HeadVector(A, nodes, edges, seeds, c.(topK := room)) == HeadVector(A, nodes, edges, seeds, c)
  {
    EventsReadSamePpr(A, c.(topK := room), c, IdToIdx(nodes), edges);
    hide Rounds;
    assert forall p: seq<real> | |p| == |nodes| ::
      HeadSystem(A, nodes, edges, c.(topK := room), p) == HeadSystem(A, nodes, edges, c, p);
  }
}
